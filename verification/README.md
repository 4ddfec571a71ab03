# FAT12/16/32 driver: a verified model

This project models the in-memory algorithms of the OS/2 FAT file system driver
in Dafny and proves what callers rely on. `dafny verify dfyconfig.toml` checks it.

| files | part of the driver |
|---|---|
| `FatCodec`, `FatTable` | the 12-, 16- and 28-bit entries at byte level, behind a window of one three-sector block that is written back to every mirrored copy |
| `FatChains`, `Volume`, `FatRuns`, `ChainCopy` | free clusters, chains, the allocator on the window, all runs of allocations and deletions, copying a chain |
| `FileBytes`, `FileLayer`, `Division` | open files with their cached cursors: read, write, size changes, seeks, specified on byte sequences |
| `CacheModel`, `CacheOrder`, `CacheRow`, `SectorCache`, `CacheRuns` | the sector cache: slot chains, the list by age, dirty sectors, which drives are flushed and when, all runs of transfers |
| `DirSlots`, `DirBuffer`, `DirEdits`, `Directory` | directory slots, the in-place compaction, inserting, deleting, updating and renaming over a chain of clusters |
| `HeapLayout`, `Heap`, `HeapRuns` | the first-fit heap on segment bytes, all runs of requests and releases |
| `EaList`, `EaFile` | packed extended attribute lists: update and query |
| `LongName` | code page translation, the writer and the reader of long-name slots |
| `Common` | return codes and two small definitions |

Each class keeps the driver's own state (window, counters, cursors, headers, links)
and each method follows the driver's branches. A ghost field or function gives the
meaning (the flat FAT, a file's bytes, the logical sectors, the live slots, the row
of blocks, the list of attributes), and the contracts speak about that.

## What the proofs found

- `MakeFatChain` rolls back exactly when it was not given a previous cluster. With
  one, a failure after the first round leaves that cluster linked to a deleted one
  (`DanglingLink`).
- `DeleteFatChain` counts right if and only if a chain of clusters from the first one
  ends in an end or bad mark; otherwise it counts up to two clusters too many, one for
  a walk that ends in a zero entry and one for a walk over the reserved entry 1
  (`DeleteCount`, `FreedTwice`, `TwoTooMany`).
- `SetFatEntryEx` writes all 32 bits of a FAT32 entry. The Microsoft FAT
  Specification, section 4, asks to keep the four high bits; they survive only when
  they were zero.
- `ReadSector` reads the device before it looks for dirty copies. From the sector at
  which storing one of them forces an emergency flush of the drive, it returns what the
  device held before that flush, and leaves it cached like that (`StaleRead`). Which
  sector that is, if any, follows from the cached sectors, the unused entries and the
  dirty sectors by age, of all drives (`FlushAt` in `CacheOrder`); there is none below
  the dirty threshold or while the unused entries last (`CalmWhen`).
- `WriteSector` writing through has the device write first and the tables after it.
  An emergency flush in between writes older dirty copies of later sectors of the
  same transfer over the new ones (`LateWrite`), from the sector given by the same
  function. The transfer is whole if and only if those copies were equal to it
  (`TransferredWhole`).
- A lazy write skips a sector whose cached copy is identical. It loses the sector if
  and only if that copy equals what is written while the sector contains something
  else, which a read as above can leave behind (`LostWrite`, `OneSector`), and has not
  been evicted before its turn, which follows from the entries by age (`LazyRow` in
  `CacheRow`).
- With these conditions the contents of every sector after every run are those of the
  last write that landed on it (`LastLandedWrite`).
- `FS_WRITE` takes a shortcut when it appends at a block border, which finds the
  right cluster and block under the exact condition of `ShortcutExact`; `FsWrite`
  returns whether it went astray. With one block per cluster it never does
  (`OneBlock`); with two it can (`Astray`).
- Bytes between the old end of a file and the position of a write behind it are
  what the clusters held (`FsWrite`).
- `MODIFY_DIR_RENAME` deletes the old entry before it inserts the new one. The entry is
  lost if and only if after the deletion no window of two blocks has room and fewer
  clusters are free than `Growth` says the new one needs, or the new one is larger than
  a window (`Rename`, `LostEntry`).
- `MODIFY_DIR_DELETE` keeps two blocks in memory. It writes in front of them if and only
  if the long name begins in front of the previous block (`Delete`), which needs a long
  name longer than a block (`ShortNamesNear`, `StrayDelete`).
- `malloc` of 65517 to 65534 bytes, and of no other size, creates every missing heap
  segment and uses none (`RefusedExactly`).
- `usModifyEAS` computes entry sizes in 16 bits. It does what is intended if and only
  if every entry it meets fits 16 bits or is caught by the bounds check all the same
  (`AsIntended`). It runs for ever if and only if it meets an entry whose size is a
  multiple of 65536 and whose name is accepted (`Terminates`, `EndlessUpdate`). Other
  wrapped entries are stored as at most 259 bytes that need not be a list any more
  (`TornUpdate`).
- `usGetEAS` refuses a buffer of 65536 bytes or more, because the size is cast to
  16 bits.
- All names in some code page characters survive a long name if and only if each
  character does (`AllNamesBack`): its Unicode character is neither 0 nor 0xFFFF, and
  no larger code has the same one (`InvertsExactly`).

## Model

| member | source | states |
|---|---|---|
| `FatCodec.DecodeEncoded` | ifs/fat32a.c:4423-4542 | Storing a 12-, 16- or 28-bit entry into the bytes of a FAT block and reading it back gives the stored value. |
| `FatCodec.EncodeKeepsOthers` | ifs/fat32a.c:4423-4542 | Storing one entry leaves every other entry of the block as it was, also the FAT12 neighbour that shares a byte. |
| `FatCodec.NoStraddle` | ifs/fat32a.c:4389-4410 | No entry, FAT12 entries included, crosses the border of a block of three sectors, for all four sector sizes. |
| `FatCodec.Fat32HighBits` | ifs/fat32a.c:4487-4542 | The four reserved high bits of a FAT32 entry survive a store if and only if they were zero. |
| `FatCodec.Layout` | ifs/fat32a.c:4415-4542 | The FAT is one string of bits, the lowest bit of the first byte first: bit k of entry c is its bit 12c + k, 16c + k or 32c + k. |
| `FatTable.FatTable.constructor` | ifs/fat32a.c:4274-4376 | From a disk whose copies agree the window starts unloaded and the flat FAT is what copy 0 decodes to. |
| `FatTable.FatTable.ReadFatSector` | ifs/fat32a.c:4274-4317 | Loading another block into a clean window keeps the flat FAT; loading never writes. |
| `FatTable.FatTable.WriteFatSector` | ifs/fat32a.c:4322-4376 | Writing the window back stores it in every mirrored copy, or in the first copy only when mirroring is off, touches no other block and leaves the window clean. |
| `FatTable.FatTable.GetFatEntry` | ifs/fat32a.c:4415-4474 | On the loaded block the entry read is the flat FAT's. |
| `FatTable.FatTable.SetFatEntry` | ifs/fat32a.c:4479-4542 | On the loaded block exactly one entry of the flat FAT changes, to the masked value. |
| `FatTable.FatTable.EntryInBlock` | ifs/fat32a.c:4381-4410 | Every cluster's entry lies inside an existing block. |
| `FatTable.FatTable.OnDisk` | ifs/fat32a.c:4322-4376 | With a clean window each mirrored copy on disk decodes to the flat FAT, entry by entry. |
| `FatTable.FatTable.BitOnDisk` | ifs/fat32a.c:4274-4410 | So it is on disk over the sectors of every mirrored copy, one behind the other. |
| `FatChains.AppendedFreeSet` | ifs/fat32a.c:4913-4991 | Chaining free clusters removes exactly them from the free set, and the free count drops by their number. |
| `FatChains.AppendedChain` | ifs/fat32a.c:4719-4908 | Clusters appended to a chain make one chain; appended to nothing they are a chain of their own. |
| `FatChains.AppendedElsewhere` | ifs/fat32a.c:4719-4908 | A chain that the tail does not belong to is still a chain and shares no cluster with the new ones. |
| `FatChains.AppendedTwice` | ifs/fat32a.c:4874-4893 | Two rounds of an allocation, the second hung on the first, are one append. |
| `FatChains.AppendedCleared` | ifs/fat32a.c:4900-4908 | Deleting what was appended restores every entry, except the link in the previous cluster. |
| `FatChains.DeleteChain` | ifs/fat32a.c:6019-6095 | The walk of DeleteFatChain over a chain zeroes exactly its entries and counts exactly its clusters. |
| `FatChains.DeleteCount` | ifs/fat32a.c:6047-6091 | On any FAT the count freed is the gain in zero entries if and only if a chain of distinct clusters, entry 1 not among them, leads from the first one to an end or bad mark; else it is one or two too many. |
| `FatChains.IntactChain` | ifs/fat32a.c:6047-6091 | On any FAT the walk ends at a mark, not at a zero entry, if and only if there is a chain of distinct entries to a mark. |
| `FatChains.MarkedWalk` | ifs/fat32a.c:6047-6091 | The walk over such a chain zeroes exactly its entries. |
| `FatChains.TwoTooMany` | ifs/fat32a.c:6047-6091 | A concrete FAT with an entry of value 1 on which three clusters are counted and one is gained. |
| `FatChains.ClearedFreeSet` | ifs/fat32a.c:6019-6095 | A deleted chain adds exactly its clusters to the free set. |
| `FatChains.ClearedElsewhere` | ifs/fat32a.c:6019-6095 | Deleting one chain leaves every disjoint chain a chain. |
| `FatChains.ContiguousWhenPossible` | ifs/fat32a.c:4751-4898 | If any free run of the requested length exists, the allocation is one contiguous run. |
| `FatChains.FirstFitIs` | ifs/fat32a.c:4751-4846 | The search stops at a run if and only if its entries are 0 and no run of zeros of that length comes earlier, from the hint to the end and then from cluster 2. |
| `FatChains.RoundsAre` | ifs/fat32a.c:4751-4898 | Where each round of an allocation starts to search, what it takes, and that none but the last leaves a longer run. |
| `FatChains.LeftFree` | ifs/fat32a.c:4874-4893 | After some rounds exactly those clusters are free that were and lie in none of their runs. |
| `FatChains.NextFreeIs` | ifs/fat32a.c:5217-5259 | A cluster is the one the search for a single cluster returns if and only if its entry is 0 and no other 0 comes earlier in the same order. |
| `FatChains.Marks` | ifs/fat32a.c:4564-4583 | The values that end a chain and the one that marks a bad cluster, for the three types. |
| `Volume.Volume.Peek` | ifs/fat32a.c:4564-4583 | Reading any entry through the window gives the flat FAT's entry and changes nothing else. |
| `Volume.Volume.GetNextCluster` | ifs/fat32a.c:4564-4583 | The next cluster, with every end mark, 0xFF8, 0xFFF8 or 0xFFFFFF8 and above, read as the one end mark. |
| `Volume.Volume.ClusterInUse` | ifs/fat32a.c:4637-4666 | True exactly for clusters inside the volume with a nonzero entry. |
| `Volume.Volume.GetFreeSpace` | ifs/fat32a.c:4671-4714 | Afterwards the free count is the number of zero entries and the hint the first of them, or zero. |
| `Volume.Volume.GetFreeCluster` | ifs/fat32a.c:5217-5259 | Fails exactly when the count or the FAT says nothing is free; else returns the first free cluster at or after the hint, wrapping once; a free cluster at the hint is taken. |
| `Volume.Volume.SetNextCluster` | ifs/fat32a.c:5134-5211 | The whole new state for a plain link, for starting a chain of one free cluster and for extending by one, behind a used or a free cluster; the free count goes up or down by one, modulo 2 to the 32, exactly when a cluster enters or leaves the free pool; when nothing is free nothing changes. |
| `Volume.Volume.MakeChain` | ifs/fat32a.c:4913-4991 | Links a run of clusters in order and adjusts both counters, the free count like a ULONG; succeeds exactly when the whole run is free, else the entries before the first used one are linked. |
| `Volume.Volume.DeleteFatChain` | ifs/fat32a.c:6019-6095 | Through the window and on every copy it does what the walk on the flat FAT does, and adds the count modulo 2 to the 32. |
| `Volume.Volume.SkipUsed` | ifs/fat32a.c:4775-4794 | The next free cluster, or the end, with no free run starting in between. |
| `Volume.Volume.RunEnd` | ifs/fat32a.c:4810-4832 | The length of the free run at a cluster, up to the number wanted. |
| `Volume.Volume.SearchRun` | ifs/fat32a.c:4751-4846 | From the hint, wrapping once: the first run of the wanted length if there is one, else the first among the longest free runs of the whole FAT. |
| `Volume.Volume.TakeRun` | ifs/fat32a.c:4851-4893 | Linking a run behind a tail is an append; the counters follow. |
| `Volume.Volume.MakeFatChain` | ifs/fat32a.c:4719-4908 | Succeeds exactly when the request is positive and neither the count nor the FAT is too small; then exactly the requested number of distinct free clusters, linked behind the tail, last cluster returned, all else unchanged, count lowered. The first round searches from the hint, every other from the end of the run before; each takes the first run of its length in that order, and every round but a final exact fit a longest one. Enough free clusters at the hint are taken there. On failure the count is restored and so is every entry, except the link in a given previous cluster. |
| `Volume.Volume.Rollback` | ifs/fat32a.c:4900-4908 | The error exit restores entries and count exactly when no previous cluster was given. |
| `Volume.DanglingLink` | ifs/fat32a.c:4871-4908 | A concrete FAT on which extending a chain fails and leaves its tail linked to a free cluster. |
| `Volume.FreedTwice` | ifs/fat32a.c:6047-6091 | A concrete FAT on which deleting a free cluster raises the free count. |
| `Volume.Volume.SeekToCluster` | ifs/fat32a.c:6097-6132 | The cluster that holds a position, or the end mark behind the chain. |
| `Volume.Volume.GetLastCluster` | ifs/fat32a.c:6134-6168 | The last cluster of a chain; the end mark for no chain. |
| `Volume.Volume.GetChainSize` | ifs/fat32a.c:6254-6295 | The number of clusters of a chain. |
| `FatRuns.StepKeepsInv` | ifs/fat32a.c:4719-6095 | Each allocate, extend, grow, truncate or delete keeps: exact free count, every file a chain, no cluster in two files. |
| `FatRuns.RunKeepsInv` | ifs/fat32a.c:4719-6095 | So does every run of such events. |
| `FatRuns.RunIsSafe` | ifs/fat32a.c:4719-6095 | At every moment of every run one cluster has at most one owner and is not free, and the counter is the number of zero entries. |
| `FatRuns.Perform` | ifs/fat32a.c:4719-6095 | The driver's calls for an event, made on the window and the disk, take exactly that abstract step. |
| `FatRuns.DeletedChain` | ifs/fat32a.c:6019-6095 | Deleting a whole chain with an exact count gives the cleared FAT and an exact count. |
| `FatRuns.CutChain` | ifs/ifsfile.c:2952-2981 | Ending a chain early leaves two disjoint chains and frees nothing. |
| `ChainCopy.Copier.CopyChain` | ifs/fat32a.c:6170-6252 | Succeeds exactly when enough clusters are free; then a new chain of free clusters holds block for block what the source holds, all chains are kept and nothing outside the copy changed; otherwise nothing changed. |
| `FileLayer.File.PositionToOffset` | ifs/ifsfile.c:2308-2324 | The cluster of the chain that holds an offset, or the end mark. |
| `FileLayer.File.ReadBlock` | ifs/fat32a.c:4192-4228 | The block of a cluster; clusters outside the volume or marked bad are refused. |
| `FileLayer.File.WriteBlock` | ifs/fat32a.c:4233-4269 | Exactly one block changes; clusters outside the volume or marked bad are refused. |
| `FileLayer.File.Located` | ifs/ifsfile.c:1177-1470 | Byte p of a file with p = (i * blocks per cluster + b) * block size + o is byte o of block b of the i-th cluster of its chain. |
| `FileLayer.File.ChainLength` | ifs/ifsfile.c:2853-3034 | The chain is exactly as long as the size needs. |
| `FileLayer.File.MoveCursor` | ifs/ifsfile.c:1254-1274 | After a transfer inside a block the cursor again points at its position. |
| `FileLayer.File.ReadFirst` | ifs/ifsfile.c:1177-1274 | The first part of a read returns the bytes up to the block border, the transfer's end or the file's. |
| `FileLayer.File.ReadRuns` | ifs/ifsfile.c:1276-1416 | The second part reads the whole blocks, whether or not clusters are adjacent. |
| `FileLayer.File.ReadLast` | ifs/ifsfile.c:1418-1470 | The third part reads the beginning of the last block. |
| `FileLayer.File.FsRead` | ifs/ifsfile.c:1150-1490 | A read returns exactly the bytes from the position to the end of the transfer or of the file, advances the position by them and changes nothing else. |
| `FileLayer.File.NewSize` | ifs/ifsfile.c:2853-3034 | Fails with disk full exactly when too few clusters are free, and then changes nothing; else the chain has the ceiling of size by cluster size clusters, cut clusters are free again and added ones were free, start and last are right, the bytes below both sizes and every other chain are kept. The free count and the length of the chain keep their sum. |
| `FileLayer.File.StartIsZero` | ifs/ifsfile.c:2853-3034 | The start cluster is zero exactly when the size is, and the last cluster is the true tail. |
| `FileLayer.File.ChangeFilePointer` | ifs/ifsfile.c:2360-2512 | The new position for each origin as an unsigned 32-bit number; negative targets are refused except in a DOS session; the cursor stays right or is dropped. |
| `FileLayer.File.ResetAllCurrents` | ifs/ifsfile.c:806-816 | Every handle's cursor becomes unknown, positions stay. |
| `FileLayer.File.ShortcutExact` | ifs/ifsfile.c:1857-1918 | When a write appends at a block border and needs new clusters, the looked-up cursor is right if and only if the old size was a whole number of clusters and the cached block number is zero. |
| `FileLayer.File.OneBlock` | ifs/ifsfile.c:1857-1918 | With one block per cluster every write can be made: the shortcut is right whenever it is taken. |
| `FileLayer.File.Astray` | ifs/ifsfile.c:1857-1918 | With two blocks of 512 bytes per cluster and a file of 512 bytes the shortcut leads to the wrong cluster. |
| `FileLayer.File.MakeRoom` | ifs/ifsfile.c:1857-1942 | The growth before a write leaves the old bytes and a cursor that points at the position, unless the shortcut leads astray, which is decided exactly. |
| `FileLayer.File.WriteFirst` | ifs/ifsfile.c:1944-2046 | The first part of a write replaces exactly the bytes up to the block border. |
| `FileLayer.File.WriteRuns` | ifs/ifsfile.c:2048-2186 | The second part replaces exactly the whole blocks. |
| `FileLayer.File.WriteLast` | ifs/ifsfile.c:2189-2246 | The third part replaces exactly the beginning of the last block. |
| `FileLayer.File.FsWrite` | ifs/ifsfile.c:1796-2266 | The exact return code; on success exactly the bytes of the transfer are replaced, the file grows to hold them, bytes of a gap before them are what the clusters held, other handles, chains and blocks outside the file are untouched; on any error size, chain, bytes, FAT and handles are unchanged. Returns whether the shortcut led to a wrong cursor, if and only if it is taken, clusters are needed and the condition of `ShortcutExact` fails. The size afterwards is exact, and the free count and the length of the chain keep their sum. |
| `FileBytes.Piece` | ifs/ifsfile.c:1219-1252 | A stretch inside one block of the file is a stretch of that block. |
| `FileBytes.PutPiece` | ifs/ifsfile.c:1990-2025 | Replacing a stretch of one block replaces exactly that stretch of the file. |
| `CacheModel.MovedOk` | ifs/ifscache.c:527-563 | Moving an entry to the newest end keeps the doubly linked list a list. |
| `CacheModel.Inserted` | ifs/ifscache.c:589-596 | Hanging an entry at the head of its slot chain keeps all slot chains acyclic, disjoint and keyed by sector modulo the number of slots. |
| `CacheModel.Removed` | ifs/ifscache.c:654-682 | Taking an entry out of its slot chain keeps the same. |
| `CacheModel.LogicalIs` | ifs/ifscache.c:337-367 | The logical content of a sector is its dirty copy if there is one, else the device's. |
| `CacheModel.TransferredWhole` | ifs/ifscache.c:386-483 | A transfer that lost some sectors is the whole transfer if and only if those already contained what was transferred to them. |
| `CacheOrder.OrderGivenUp` | ifs/ifscache.c:1098-1116 | After a flush the dirty sectors by age are those of the other drives, in the same order. |
| `CacheOrder.CopiesGivenUp` | ifs/ifscache.c:1098-1116 | A flush takes exactly the copies of the dirty sectors of its drives out of the cache. |
| `CacheOrder.OrderWithout` | ifs/ifscache.c:527-563 | Taking one entry out of the list takes its sector out of the dirty sectors by age and no other. |
| `CacheOrder.PacingEnd` | ifs/ifscache.c:337-367 | The flush point of a transfer, followed sector by sector, is the one that the state before it determines. |
| `CacheRow.SkippingStep` | ifs/ifscache.c:449-476 | Sector by sector, a lazy write has skipped exactly the sectors whose copy, by the entries and their ages before it, was still there and mistaken. |
| `CacheRow.FirstFreeIs` | ifs/ifscache.c:648-700 | The entry that is given up is the oldest one that is clean, or clean once the drives have been flushed. |
| `SectorCache.SectorCache.constructor` | ifs/ifscache.c:77-197 | InitCache starts with empty tables that agree with the devices, at most 4096 entries and a dirty threshold a twentieth below their number. |
| `SectorCache.SectorCache.UpdateChain` | ifs/ifscache.c:527-563 | Exactly one entry becomes the newest, the order of the others is kept, the links stay consistent. |
| `SectorCache.SectorCache.FindSector` | ifs/ifscache.c:767-793 | Finds the live entry of a sector and drive if there is one. |
| `SectorCache.SectorCache.GetSectorFromCache` | ifs/ifscache.c:508-522 | Returns the entry's data and makes it the newest. |
| `SectorCache.SectorCache.ReplaceSectorInCache` | ifs/ifscache.c:708-731 | Data, dirty flag and dirty count change for one entry, which becomes the newest. |
| `SectorCache.SectorCache.WriteCacheSector` | ifs/ifscache.c:799-858 | One dirty sector reaches the device, becomes clean, and is given up when marked for discard; the dirty count drops by one. |
| `SectorCache.SectorCache.EmergencyFlush` | ifs/ifscache.c:1051-1126 | Strictly lowers a positive dirty count by flushing and giving up exactly the dirty entries of one drive, the one of the first dirty entry from the oldest on. |
| `SectorCache.SectorCache.MakeRoom` | ifs/ifscache.c:606-646 | The threshold loop ends with the dirty count below the threshold; it flushes exactly the drives that come first by their oldest dirty sector, one after the other until then. |
| `SectorCache.SectorCache.OldestClean` | ifs/ifscache.c:648-700 | With a full cache and few dirty entries one pass finds the oldest clean entry; a dirty one is never evicted. |
| `SectorCache.SectorCache.StoreEvicting` | ifs/ifscache.c:648-700 | With a full cache exactly one copy, that of the oldest clean entry, gives way to the new one. |
| `SectorCache.SectorCache.StoreSector` | ifs/ifscache.c:571-703 | Caches a sector in an unused entry, or flushes the drives of the threshold loop and evicts the oldest entry that is clean then: all copies, the dirty sectors by age and the contents afterwards are given; the contents change only if it was a write. |
| `SectorCache.SectorCache.FlushVolume` | ifs/ifscache.c:967-1046 | A full flush leaves no dirty entry of the drive and a device equal to the logical contents; after a discard no sector of the drive is found or stale. Any other flush walks from the oldest entry to the first busy one. Either way exactly the entries chosen, all of the drive or the aged ones on the way, are clean, on the device, and given up with discard; every other entry, sector and drive is as it was. |
| `SectorCache.SectorCache.ReadSector` | ifs/ifscache.c:209-381 | From any state: never changes the logical contents. Returns the cached copies if all sectors have one; else the logical contents up to the sector at which an emergency flush of the drive happens and the device's from there on. That sector is given exactly, also with several drives dirty. Newly stale are exactly the sectors from there on whose device lagged, and their copies hold what the device held. While unused entries last, exactly the sectors that were not cached get copies, of what the device holds, unless the caller asks for no caching. |
| `SectorCache.ReturnsContents` | ifs/ifscache.c:209-381 | A read returns what all its sectors contain if and only if the copies it finds are up to date, or the device is from the flush on. |
| `SectorCache.SectorCache.WriteSector` | ifs/ifscache.c:386-483 | From any state: the logical contents change to the written sectors and nowhere else, but for the lost ones. A write through loses exactly the sectors with a dirty copy behind the one at which an emergency flush of the drive happens, which is given exactly, and the device then agrees with the logical contents. A lazy write loses exactly the sectors whose copy is still there at their turn and equals what is written while they contain something else. Refusals change nothing. While unused entries last, the copies and the device are exact: a lazy write makes its sectors dirty, but for identical copies, and leaves the device alone; any other puts all of them on the device. |
| `SectorCache.StaleRead` | ifs/ifscache.c:337-367 | A concrete cache in which a read above the threshold returns a sector the device had before an emergency flush. |
| `SectorCache.LateWrite` | ifs/ifscache.c:386-483 | A concrete cache in which a write through above the threshold leaves an older copy on the device. |
| `SectorCache.LostWrite` | ifs/ifscache.c:449-476 | Behind the cache of `StaleRead` a lazy write is dropped: the sector keeps other contents than were written. |
| `CacheRuns.LastWriteWins` | ifs/ifscache.c:209-483 | In every run of reads, writes and flushes a sector that is never stale contains what the last completed write put there, else its first contents. |
| `CacheRuns.LastLandedWrite` | ifs/ifscache.c:209-483 | In every run, for every sector, stale or not: it contains what the last write that landed put there, else its first contents; a write lands unless it is lost under the exact conditions of `WriteSector`. |
| `CacheRuns.ReadsLastWrite` | ifs/ifscache.c:209-381 | A read that no emergency flush can overtake returns what was written last to each sector that was never stale. |
| `CacheRuns.CalmRun` | ifs/ifscache.c:209-483 | While no operation can be overtaken by an emergency flush, no sector becomes stale. |
| `CacheRuns.OneSector` | ifs/ifscache.c:449-476 | A write of one sector lands if and only if it is not a lazy one that finds an identical copy of a sector that contains something else. |
| `CacheRuns.ReadExactly` | ifs/ifscache.c:209-381 | A read returns the contents of a sector if and only if its copy is up to date, or the read comes to it before the flush, or the device is up to date. |
| `CacheRuns.CalmWhen` | ifs/ifscache.c:606-646 | Below the dirty threshold, without caching, and while the unused entries last no emergency flush overtakes a transfer. |
| `CacheRuns.Run` | ifs/ifscache.c:209-483 | The driver performs any list of operations from any state, and the snapshots in between are such a run, with the buffers of all reads fixed by them. |
| `CacheRuns.Perform` | ifs/ifscache.c:209-483 | Each operation is refused exactly when it is outside the disk or write protected, and otherwise takes the step described for reads, writes and flushes: the buffer of every read, calm or not, and what every write loses. |
| `DirSlots.FreeFirst` | ifs/fat32a.c:6362-6370 | Among long-name slots and end marks at the end of a well-formed stretch the free ones come first. |
| `DirBuffer.GetFreeEntries` | ifs/fat32a.c:6310-6328 | Counts the slots marked 0 or deleted. |
| `DirBuffer.MarkFreeEntries` | ifs/fat32a.c:6297-6308 | Turns end marks into deleted slots and nothing else. |
| `DirBuffer.MarkedSame` | ifs/fat32a.c:6297-6308 | Marking keeps the live slots and the number of free ones. |
| `DirBuffer.SqueezedRoom` | ifs/fat32a.c:6372-6399 | Squeezing out the free slots found so far leaves enough consecutive free slots between two groups. |
| `DirBuffer.CompactDir` | ifs/fat32a.c:6330-6400 | With enough free slots and whole long names it returns a position with that many consecutive overwritable slots, keeps the live slots in order, splits no group and leaves what is behind the gap as it was. Slot by slot: nothing moves when the end marks have room and no long name stands in front of them; else the first free slots, as many as are needed, are taken out in front of the tail of long-name slots and end marks. |
| `DirEdits.InsertedLive` | ifs/fat32b.c:1085-1146 | An insertion means: the new group is between two live groups, all others in order. |
| `DirEdits.InsertedInto` | ifs/fat32b.c:1085-1146 | A group put into compacted room keeps the whole directory well formed and no live slot behind an end mark. |
| `DirEdits.GroupRemoved` | ifs/fat32b.c:1016-1026 | Deleting an entry with the long name before it removes exactly that group from the live slots. |
| `DirEdits.TargetIs` | ifs/fat32b.c:968-993 | The match of the search, byte by byte: not free, attribute not 15, no volume label, and the eleven name bytes and both cluster words equal. |
| `DirEdits.OthersStay` | ifs/fat32b.c:1016-1026 | A deletion marks with the entry nothing but slots of a long name. |
| `Directory.Directory.InsertPair` | ifs/fat32b.c:1085-1121 | Insertion into the window of two blocks, compacted as one, both written back. |
| `Directory.Directory.InsertSingle` | ifs/fat32b.c:1123-1146 | Insertion into one block. |
| `Directory.Directory.PassBlock` | ifs/fat32b.c:1147-1163 | A block without room has its end marks turned into deleted slots, is written back, and the directory means the same. |
| `Directory.Directory.AddCluster` | ifs/fat32b.c:1201-1249 | One free cluster is hung on the directory and cleared, or nothing changes when none is free; other chains are kept. |
| `Directory.Directory.Insert` | ifs/fat32b.c:907-1260 | Inserts the group between two groups. Succeeds exactly when the group fits two blocks and as many clusters are free as it needs; adds exactly that many, none when a window has room; otherwise the live slots are unchanged and all free clusters are hung on. The contents of every block are given: the group is in the first window of a block and the one before it that has room, compacted as one; the blocks in front are marked, those behind are as they were; clusters outside the directory are untouched. |
| `Directory.Directory.Look` | ifs/fat32b.c:961-993 | One round of the search tells whether the slot is the one sought, which `DirEdits.TargetIs` gives byte by byte, and keeps the start of the long name right before the slot. |
| `Directory.Directory.Find` | ifs/fat32b.c:956-995 | Finds the first matching entry over all blocks and where its long name starts, in the same block, the previous one or further in front. |
| `Directory.Directory.Delete` | ifs/fat32b.c:956-1063 | From any directory: the slot marked is the first with the eleven name bytes and the four cluster bytes of the entry sought that is not free, no long-name slot and no volume label; no slot has them when it is not found, and then nothing changes. Marks exactly that slot and the long name right before it, also when that begins in the previous block, and no other entry; where the live names differ, every entry of another name stays. Says exactly when the long name begins in front of the two blocks in memory, and then marks from the previous block on; no live slot ends up behind an end mark. |
| `Directory.Directory.ShortNamesNear` | ifs/fat32b.c:1016-1063 | While no long name is longer than a block, none begins in front of the two blocks. |
| `Directory.Directory.Update` | ifs/fat32b.c:956-1014 | Replaces exactly the first slot with the eleven name bytes and the four cluster bytes sought; when no slot has them nothing changes. |
| `Directory.Directory.Rename` | ifs/fat32b.c:1016-1083 | Deletes the first slot with the name and cluster bytes sought and then inserts into what the deletion left; fails with a full disk exactly when that insertion does, and then the old entry is gone and the rest is unchanged. Says exactly when the deletion strays. |
| `Directory.LostEntry` | ifs/fat32b.c:1016-1083 | A concrete full directory in which a rename fails and the entry is gone. |
| `Directory.StrayDelete` | ifs/fat32b.c:1016-1063 | A concrete directory in which a long name of 20 slots begins in front of the two blocks; its beginning stays behind. |
| `HeapLayout.TakenSound` | ifs/ifsmem.c:150-189 | Taking a block, split or whole, keeps the segment tiled and no two neighbours free. |
| `HeapLayout.ReleasedSound` | ifs/ifsmem.c:246-273 | So does joining a released block with its free neighbours. |
| `HeapLayout.TakeRelease` | ifs/ifsmem.c:150-281 | Taking a block and releasing it again gives the same row of blocks. |
| `HeapLayout.ReleaseTwice` | ifs/ifsmem.c:246-273 | Releasing a free block changes nothing. |
| `HeapLayout.TakenIs` | ifs/ifsmem.c:172-184 | The row after a request, block for block. |
| `HeapLayout.ReleasedIs` | ifs/ifsmem.c:246-273 | The row after a release, block for block. |
| `HeapLayout.Disjoint` | ifs/ifsmem.c:150-189 | Different blocks of a segment do not overlap and end inside it. |
| `HeapLayout.TakenUsed` | ifs/ifsmem.c:150-189 | Taking adds exactly one used block, of the size asked for or at most four bytes more, inside what was free. |
| `HeapLayout.ReleasedUsed` | ifs/ifsmem.c:246-273 | Releasing removes exactly that used block. |
| `Heap.Heap.SetBlockSize` | ifs/ifsmem.c:319-327 | Writes the size into the header bytes and keeps the free bit. |
| `Heap.Heap.FindFreeSpace` | ifs/ifsmem.c:150-189 | Fails exactly when no free block is large enough; else takes the first one, and only bytes of that block change. Header bytes: when more than four bytes are left over the used block has the requested size and a free block fills the rest; otherwise the whole block is used. |
| `Heap.Heap.FreeBlock` | ifs/ifsmem.c:246-281 | Finds the block of an address and joins it; one header changes; an unknown address changes nothing. |
| `Heap.Heap.Malloc` | ifs/ifsmem.c:84-145 | First fit over the existing segments, else in a new one. Block for block: the first block of at least the even size is split when it exceeds it by more than four bytes, else handed out whole; every other block stays. Sizes that wrap to zero or find no room get a segment of their own, and a request too large for any segment creates them all. |
| `Heap.Heap.Free` | ifs/ifsmem.c:194-295 | Releases the block of the address: block for block, one free block takes the place of it and of its free neighbours, and a segment that becomes one free block is given back unless it is the first. |
| `Heap.RequestKeepsBytes` | ifs/ifsmem.c:150-189 | A request leaves the bytes of every other block as they were. |
| `Heap.ReleaseKeepsBytes` | ifs/ifsmem.c:246-281 | A release leaves the bytes inside every block as they were. |
| `HeapRuns.RunKeepsInv` | ifs/ifsmem.c:84-295 | In every run the used blocks are exactly the outstanding allocations. |
| `HeapRuns.NoOverlap` | ifs/ifsmem.c:84-295 | Outstanding allocations never overlap. |
| `HeapRuns.ServedSize` | ifs/ifsmem.c:84-189 | In every run a request that is served hands out one new block of its even size or at most four bytes more. |
| `HeapRuns.RunKeepsContents` | ifs/ifsmem.c:84-295 | Over every run an outstanding allocation keeps its bytes until it is returned or its owner writes into it. |
| `HeapRuns.RefusedExactly` | ifs/ifsmem.c:84-145 | While a segment can be added, exactly the requests of 65517 to 65534 bytes are not served from the heap; they create every missing segment. |
| `HeapRuns.MallocFree` | ifs/ifsmem.c:84-295 | malloc followed by free restores every segment, except that a first segment created for it stays and an empty later one goes. |
| `HeapRuns.PerformRequest` | ifs/ifsmem.c:84-145 | The call takes exactly the abstract step. |
| `HeapRuns.PerformReturn` | ifs/ifsmem.c:194-295 | The call takes exactly the abstract step. |
| `EaList.ApplyProper` | ifs/ifsea.c:98-144 | Inserting, replacing or deleting one attribute keeps names unique and entries whole. |
| `EaList.LookupApply` | ifs/ifsea.c:98-144 | After an update its name has its value or none, and every other name what it had; `EaList.UpdateByName` says on the bytes which names are the same. |
| `EaList.LookupApplyAll` | ifs/ifsea.c:75-144 | After a list of updates every name has the value of the last update to it. |
| `EaList.SameNameIs` | ifs/ifsea.c:949-979 | Names are the same if and only if at every place the bytes are equal or one is a letter from A to Z and the other the small letter. |
| `EaList.LookupByName` | ifs/ifsea.c:949-979 | What is looked up is an entry with that name in any case, if there is one. |
| `EaList.UpdateByName` | ifs/ifsea.c:98-144 | An update changes what is found under its name in any case, and under no other name. |
| `EaFile.WalkFind` | ifs/ifsea.c:949-979 | On a packed list FindEA gives the offset of the first entry of the name, or none. |
| `EaFile.WalkCase` | ifs/ifsea.c:949-979 | Names that differ in case only lead the scan to the same offset. |
| `EaFile.FeaList.FindEA` | ifs/ifsea.c:949-979 | On any bytes the scan stops at the first entry of the name or where the list stops being one. |
| `EaFile.FeaList.Store` | ifs/ifsea.c:104-141 | On any bytes, one insertion, replacement or deletion at the place the scan finds, given byte by byte, with cbList exact; refused exactly when the result would exceed 65536 bytes, and then nothing changes. |
| `EaFile.EditApplies` | ifs/ifsea.c:98-141 | On a packed list that is the update of the list. |
| `EaFile.ProcessFolds` | ifs/ifsea.c:75-148 | An update as intended is the left fold of the source entries over the stored ones, unique and within the size limit. |
| `EaFile.Attributes.ModifyEas` | ifs/ifsea.c:33-162 | For every source list and any stored bytes: the exact return code and error offset, or that the call does not return; the stored bytes change only on success. |
| `EaFile.AsIntended` | ifs/ifsea.c:79-144 | The loop with its 16-bit sizes does what is intended if and only if every wrapped size it meets still reaches past the end of the list or its name is refused with the same error. |
| `EaFile.NextEntry` | ifs/ifsea.c:79-113 | The next source entry, on its bytes: one that goes beyond the list and one with a value whose name is refused end the update with its offset; otherwise only the size of the stored list can. |
| `EaFile.Terminates` | ifs/ifsea.c:79-144 | The loop goes on for ever if and only if some round is at an entry whose size is 0 in 16 bits and whose name is accepted; else it ends with the stated result. |
| `EaFile.StoresFold` | ifs/ifsea.c:75-148 | If no wrapped size goes unnoticed, what a successful update stores is the fold, with unique names. |
| `EaFile.EndlessUpdate` | ifs/ifsea.c:79-144 | A concrete entry of 65536 bytes on which the call does not return. |
| `EaFile.TornUpdate` | ifs/ifsea.c:79-144 | A concrete entry of 65541 bytes of which five are stored; they are no list. |
| `EaFile.Attributes.GetEas` | ifs/ifsea.c:215-348 | On any stored bytes: the answers to a list of names packed in the caller's buffer, or the overflow or inconsistency that stops it; buffers of 65536 bytes or more are refused. |
| `EaFile.AnswerPacked` | ifs/ifsea.c:299-348 | On a packed list the answer is the stored entry of the name, or an empty one. |
| `EaFile.EmptyBytes` | ifs/ifsea.c:299-348 | The bytes of the entry that answers for a name that is not stored. |
| `EaFile.AnswerByName` | ifs/ifsea.c:75-348 | After one update its name in any case is answered with its entry, or an empty one, and every other name as before. |
| `EaFile.RequestsBack` | ifs/ifsea.c:265-348 | A list of names packed as the interface asks is read back name by name. |
| `EaFile.AnswersInOrder` | ifs/ifsea.c:299-348 | Every request is answered, in request order. |
| `EaFile.UpdatedAnswer` | ifs/ifsea.c:75-348 | Reading a name after an update returns the last update to it, an empty entry if that deleted it, else what was stored. |
| `LongName.TranslateInit` | ifs/ifslang.c:302-340 | The inverted table holds for each Unicode character the largest code that has it, and 0x5F5F for a character that no code has. |
| `LongName.InvertsExactly` | ifs/ifslang.c:328-334 | A code comes back if and only if no larger code has the same Unicode character. |
| `LongName.Translate2Win` | ifs/ifslang.c:223-260 | At most the given number of characters, single or double byte, is translated, and the bytes consumed are counted. |
| `LongName.Translate2OS2` | ifs/ifslang.c:262-300 | The characters before the first zero, in code page bytes, as far as the buffer has room. |
| `LongName.CharBytes` | ifs/ifslang.c:223-260 | The bytes of a character in a name: one, or the lead byte and the other. |
| `LongName.CharText` | ifs/ifslang.c:262-300 | The bytes a Unicode character becomes, and that a zero ends the text. |
| `LongName.DbcsStrlen` | ifs/fat32a.c:6505-6522 | The number of characters of a name. |
| `LongName.SetLongName` | ifs/fat32a.c:5657-5741 | Writes exactly the slots of the name in reverse order and returns the slot behind them. Byte by byte: the numbers count from 1 back from the short entry, 0x40 is added on the slot with the end of the name, attribute 15, the checksum, zeros, and thirteen characters, low byte first, cut at a character that translates to 0 and padded with 0xFFFF. |
| `LongName.NameBuffer.GetLongName` | ifs/ifsfind.c:1208-1251 | Puts a slot's text in front of the name, after clearing it when the checksum byte changed, unless it would be too long. |
| `LongName.SlotCodes` | ifs/ifsfind.c:1208-1251 | The thirteen characters of a slot from its bytes. |
| `LongName.KeptNext` | ifs/ifsfind.c:1208-1251 | The padding is dropped and nothing else. |
| `LongName.SlotTextBack` | ifs/ifsfind.c:1208-1251 | A slot written for up to 13 surviving characters reads as those characters. |
| `LongName.RoundTrip` | ifs/ifsfind.c:1208-1251 | Reading the slots of a name in directory order gives the name back. |
| `LongName.OneCharBack` | ifs/ifsfind.c:1208-1251 | A slot with one character reads as it if and only if the character survives the translation. |
| `LongName.AllNamesBack` | ifs/ifsfind.c:1208-1251 | Every name in a set of characters is read back if and only if each of them survives. |
| `LongName.NameGroup` | ifs/fat32a.c:5657-5741 | The slots of a name with a short entry behind them are one group. |

## Left out

- Volume.MakeFatChain: the search is modelled with unbounded cluster numbers, not with the 32-bit wrap of first cluster plus request; it loads an entry's block before reading the entry, where the driver's search reads first (ifs/fat32a.c:4782-4786, 4822-4826).
- FatTable.FatTable.constructor: sectors per FAT are below 3 or divisible by 3, as the window always moves three sectors, and the copies on disk agree.
- FileLayer.File.FsWrite: what the driver writes where after the shortcut has led it astray is not followed; `OneBlock` proves that it does not for clusters of at most 32768 bytes. A transfer is at most 65535 bytes in the driver, so that its casts to 16 bits do not truncate; the model has no such casts.
- FileLayer.File.FsRead: all handles of a file share one size; the model has no copy of it per handle.
- FileLayer.File.NewSize: error exits for devices and FS_COMMIT are left out.
- Directory.Directory.Insert: one block per cluster; the group of slots comes ready made, as `LongName.SetLongName` and the caller's short entry give it; MakeShortName and the checksum of the short name are not part of this model.
- Directory.Directory.Delete: what lies in memory in front of the two blocks, where the driver writes when the long name begins there, is not part of this model. Above 32768 bytes per cluster and for the fixed root directory of FAT12 and FAT16 nothing is stated.
- Directory.Directory.Rename: when the long name begins in front of the two blocks, which the result says exactly, the insertion after the deletion is not followed.
- Heap.Heap.Malloc: requests to the kernel for segments always succeed; a segment of its own is represented by its size.
- EaFile.Attributes.ModifyEas: the 255 bytes of memory behind the source list can be read, as the driver does when the length of a name says so; reading and writing the attribute file is assumed to succeed; the name check is a parameter.
- EaFile.Attributes.GetEas: only the query by a list of names; names end in a zero byte, as the interface demands of the caller.
- LongName.SetLongName: the tables are laid end to end and translation is on; with translation off every byte is its own character. A name does not end inside a double-byte character.
- Device and kernel calls, segments and selectors, the dirty mark of the volume, semaphores, timers, the emergency thread and the daemon handshake are left out; each operation is atomic and device errors do not occur.
- Direct access (DASD) transfers, FAT+ sizes, swapping, mounting, formatting, checking, file search, locking and the ioctl and fsctl interfaces are not part of this model.
- The cache is modelled from InitCache on, although the driver no longer calls it, with data indexed by entry instead of by selector and offset.
