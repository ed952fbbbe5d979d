# Storage, netplay and ELF layout: a verified model

This project models four parts of the repository and proves what they promise.

- **libfat storage** (`modules/libfat`): a write-back page cache over a disc (`Disc`, `CachePages`,
  `CacheRecency`, `Cache`, `CacheRun`), packed FAT12/16/32 entries and cluster chains (`FatTable`, `Chains`,
  `Partition`), files as byte strings (`DataRegion`, `FileModel`, `FileRead`, `WriteModel`, `FileWrite`,
  `FileExtend`, `FileSeek`, `FileSpec`, `OpenFile`, `FileSession`, `OpenFileList`, `BlankPartition`, `ForeignByte`) and directories
  (`LongNames`, `DirectoryScan`, `ForeignName`, `DirectorySlots`, `DirectoryPosition`, `Directory`). The layers are stacked: a file operation
  is a class method that changes clusters through table entries, entries through cached sectors, and
  sectors through pages of the disc; directory entries are slots in the clusters of a chain or in the fixed root
  directory's sectors. The cache keeps a ghost byte string `view` of the whole partition, and everything above is
  stated in terms of it.
- **Netplay** (`modules/netslug_main/main.c`): two consoles as a step system in which every
  interleaving of threads, interrupts, streams and disc reads is a run (`NetConsole`, `NetSystem`), with
  invariants over all runs (`NetFrames`, `NetDisc`, `NetProgress`), runs that show where the guarantees end (`NetFrameFive`,
  `NetLostRead`, `NetFullTable`), and the handlers as they run,
  over arrays that are updated in place (`NetMachine`). Each handler is proved equal to the step of the system.
- **ELF layout** (`src/libelf/elf_update.c`, `src/libelf/elf_strptr.c`): `ElfLayout`, `ElfExtents`, `ElfPlacement`,
  `ElfWriter`, `ElfStrptr`.
- `Arith` and `Bytes` hold the arithmetic and byte-string facts the rest uses.

`dafny verify dfyconfig.toml` checks everything.

## What the proofs found

These are properties that do not hold without a condition. The code is modelled as it is, and the
condition is part of the contracts named.

- A search hint left by a full disc (`file_allocation_table.c:237`) lies one past the last cluster. The next link is
  sound exactly if the entry there does not read as free (`Chains.LinkSoundIffNotStray`).
- A write that ends between two clusters inside the file, and no other, leaves the saved sector past the end of the first one
  (`OpenFile.File.Write`, and `BlankPartition.EndsBetweenClusters` does it). A read of less than a
  sector then takes its bytes from whatever follows the cluster (`OpenFile.File.Read`); that is right, whatever the
  clusters hold, exactly if the next cluster of the chain is the next one on the disc
  (`FileRead.PastClusterRightIffAdjacent`); `ForeignByte.ReadsForeignByte` reads another file's byte.
- A run of operations stops being that of a plain file exactly at such reads, at transfers that 32-bit positions cannot
  follow, at writes past the end of a file that has more clusters than it needs, and when the clusters run out
  (`FileSession.Run`).
- A read whose length and position together reach 2^32 is not cut at the end of the file: it returns what the chain
  holds behind it (`OpenFile.File.Read`).
- The places where appending starts and where a gap is zeroed are right exactly if the chain has no cluster that the size
  does not need (`OpenFile.AppendRightIffSnug`, `FileExtend.EndPlace`). Another system or a failed extension can leave such
  clusters; what is written at or past the end then goes as far into the last cluster as it should go into an earlier one
  (`OpenFile.File.Write`, `OpenFile.File.GrowTo`).
- Shrinking a file to the current position, on a cluster edge, can leave the saved place in a freed cluster; `OpenFile.File.ShrinkTo` says
  exactly when.
- Growing a file by truncation fails exactly if the file's clusters and the free ones do not hold the zeros, and
  then sets the size all the same (`OpenFile.File.GrowTo`). It loses the place of the current position exactly if that lay
  beyond the end and no longer does.
- Appending loses the place of the current position exactly if that lay beyond the end and no longer does
  (`OpenFile.File.Write`, and `BlankPartition.AppendsPastPosition` does it).
- The 32-bit sums that clamp a read and form a seek target are right exactly if they do not wrap
  (`OpenFile.ClampRightIffNoWrap`, `FileSeek.SeekTargetExact`).
- A gap for a directory entry at the end marker is short by the freed slots directly before the marker; the
  new end marker survives exactly if there are none (`Directory.Directory.AddEntry`). Removing an entry in the very last slot of a directory
  frees it but reports failure (`Directory.Directory.RemoveEntry`). A slot for part 0 of a long name, or for a part after the
  nineteenth, makes a scan store units outside its buffer; the scan of the model ends there
  (`DirectoryScan.NextEntry`).
- A guest that receives frame 5 while it is still at frame 0 stays at frame 4 or below forever, and the host at frame 5 or
  below (`NetFrames.EarlyFrameStops`), and a run leads there (`NetFrameFive.EarlyFrameHappens`). Frame 5 itself can differ between
  the consoles (`NetFrameFive.FrameFiveDiffers`). A frame names one read: of several that are
  ready when it is sent the others are marked as announced and never called back, and so is one that frame 0 names, since no console
  moves to that frame. A send loses no ready read exactly if at most one is ready, and none for frame 0
  (`NetLostRead.LosesNoneIffOneReady`); runs do lose reads in both ways (`NetLostRead.TwoReadyLoseOne`,
  `NetLostRead.FrameZeroLosesRead`). What holds of the other reads holds all the same (`NetDisc.CallbackBarrier`).
- With more reads outstanding than the host's table has entries the two consoles can stop for good
  (`NetFullTable.TwentyOneReadsJam`, `NetFullTable.JammedForever`).
- A section whose own alignment is not a multiple of its type's can be placed where the writer's
  assertion fails (`ElfLayout.TypeAlignedIff`), and a descriptor without a buffer passes the layout and fails another one;
  `ElfWriter.Update` says when, and `ElfWriter.UpdateAborts` has one object of each kind. `elf_strptr` and the layout agree exactly if no empty descriptor
  moves the one behind it (`ElfStrptr.SearchAgreesIffNotMoved`); one can
  (`ElfStrptr.EmptyDescriptorDisagrees`).
- `cache.h:119-121` says that invalidating does not write dirty sectors first. The code flushes first
  (`cache.c:319-321`), and so does the model.

## Model

| member | source | states |
|---|---|---|
| CachePages.ImageIsResidentElseDevice | modules/libfat/cache.c:112-151 | the cached image is, sector by sector, the resident page's data or else the disc's, and is determined by that |
| CachePages.WriteBackKeeps | modules/libfat/cache.c:134-137 | writing a page back changes no byte of the image |
| CachePages.LoadKeeps | modules/libfat/cache.c:139-151 | replacing a clean or free page by one read from the disc changes no byte of the image and keeps pages apart |
| CachePages.StoreIsSplice | modules/libfat/cache.c:214-232 | a store in a resident page is that store in the image |
| CachePages.CleanMeansOnDevice | modules/libfat/cache.c:304-317 | with no dirty page the disc holds the image |
| CacheRecency.ResidentIffRecentlyTouched | modules/libfat/cache.c:106-151 | a page is resident exactly if fewer distinct pages than the cache has were touched since it was |
| CacheRecency.WorkingSetStaysResident | modules/libfat/cache.c:6-10 | a loaded working set no larger than the cache stays resident whatever of it is touched |
| Cache.Cache.Scan | modules/libfat/cache.c:121-132 | the scan returns the page that holds the sector, or else a free page or the least recently used one |
| Cache.Cache.GetPage | modules/libfat/cache.c:112-152 | a successful fetch yields a page with the sector; the image never changes, even if a transfer fails |
| CacheRun.FetchAll | modules/libfat/cache.c:112-152 | in a run of fetches from pages that fit into the cache, in any order, every page costs at most one write and one read, and nothing once it was loaded |
| CacheRun.FetchTwice | modules/libfat/cache.c:112-152 | once the pages of some sectors were loaded, fetching these again, however often, asks nothing of the disc |
| Cache.Cache.ReadSectors | modules/libfat/cache.c:154-177 | sectors read are those of the image, across pages |
| Cache.Cache.ReadPartialSector | modules/libfat/cache.c:182-196 | bytes read are those of the image; ranges beyond a sector are refused |
| Cache.Cache.WritePartialSector | modules/libfat/cache.c:214-232 | exactly the given bytes of the image change; a NULL buffer stores zeros |
| Cache.Cache.EraseWritePartialSector | modules/libfat/cache.c:250-268 | the sector becomes the data with zeros around it |
| Cache.Cache.WriteSectors | modules/libfat/cache.c:270-298 | exactly the given sectors change; after a failure exactly those of the completed pages |
| Cache.Cache.Flush | modules/libfat/cache.c:304-317 | a successful flush makes the disc equal to the image; the image never changes |
| Cache.Cache.Invalidate | modules/libfat/cache.c:319-328 | all pages are dropped; with a successful flush nothing is lost |
| Cache.Cache.ReadLittleEndianValue | modules/libfat/cache.c:198-209 | the value of one, two or four bytes of the image, least significant first, byte by byte |
| Cache.Cache.WriteLittleEndianValue | modules/libfat/cache.c:234-245 | the bytes of the value, cut to the field, each at its place in the image; all others stay |
| Bytes.U32IsLittleEndian | modules/libfat/cache.c:198-209 | a 32-bit value is the sum of its four bytes, each weighted by its power of 256 |
| Bytes.ToU32IsLittleEndian | modules/libfat/cache.c:234-245 | the four bytes of a 32-bit value are its quotients by powers of 256, lowest first |
| FatTable.PutThenRead | modules/libfat/file_allocation_table.c:38-198 | writing entry c and reading any entry d of a packed 12, 16 or 32-bit table gives the new value if d = c and the old one otherwise |
| FatTable.EntryWriteUpdatesTable | modules/libfat/file_allocation_table.c:121-198 | a packed entry write is an update of the table at one cluster |
| Partition.Partition.NextCluster | modules/libfat/file_allocation_table.c:38-114 | the entry as the single bytes of the image give it, for 12-bit entries also where they straddle two sectors; from 0xFF7, 0xFFF7 or 0x0FFFFFF7 on it is the end of the chain, below that the stored value |
| Partition.TableIsBytes | modules/libfat/file_allocation_table.c:38-114 | every cluster's entry in the decoded table is that sum of bytes of the image, with the end marks as one value |
| Partition.Partition.WriteFatEntry | modules/libfat/file_allocation_table.c:121-198 | only that entry changes, and nothing outside the table; numbers outside the table are refused |
| Partition.Partition.FindFreeCluster | modules/libfat/file_allocation_table.c:232-245 | the search ends after at most one wrap at the first free cluster from the hint on; it fails exactly if none is free |
| Chains.LinkSoundIffNotStray | modules/libfat/file_allocation_table.c:206-260 | for a chain end or no cluster, the link is to a free cluster or fails because none is, exactly if the hint is not stray |
| Chains.LinkTakesFirst | modules/libfat/file_allocation_table.c:220-257 | the cluster taken is the first free one from the hint on, or else the first of all; it becomes the end, the other cluster's entry points to it, and nothing else changes |
| Partition.Partition.LinkFreeCluster | modules/libfat/file_allocation_table.c:206-260 | the table, the hint and the count after linking a free cluster, in every branch |
| Chains.AttachExtends | modules/libfat/file_allocation_table.c:252-257 | attaching a free cluster extends one chain by it, keeps all others, and takes exactly it from the free clusters |
| Chains.AttachStarts | modules/libfat/file_allocation_table.c:252-257 | attached to nothing, it is a new chain of its own |
| Partition.Partition.LinkFreeClusterCleared | modules/libfat/file_allocation_table.c:269-289 | the same with the new cluster zeroed and nothing else changed; with a stray hint it is the sectors behind the last cluster that are zeroed |
| Partition.Partition.ClearLinks | modules/libfat/file_allocation_table.c:295-320 | it ends on every table with links in range, cycles included, and frees what it visits; hint and count follow |
| Chains.ClearFromChain | modules/libfat/file_allocation_table.c:304-318 | on a chain, exactly the clusters from the given one on are freed |
| Chains.ZeroedForest | modules/libfat/file_allocation_table.c:295-320 | freeing a whole chain removes it and leaves all others |
| Partition.Partition.TrimChain | modules/libfat/file_allocation_table.c:330-357 | exactly the first min(n, length) clusters are kept and the last kept one is returned |
| Chains.CutForest | modules/libfat/file_allocation_table.c:330-357 | the cut chain ends at the kept clusters, all other chains are unchanged, and the rest is free |
| Chains.FreeCountStaysExact | modules/libfat/file_allocation_table.c:311-314 | an exact free count stays exact when a chain or its end is freed |
| Chains.FreeCountAfterLink | modules/libfat/file_allocation_table.c:247-249 | an exact free count stays exact when a cluster is linked |
| Chains.FreeAfterGrowth | modules/libfat/file_allocation_table.c:206-357 | a chain that grows or shrinks does so by exactly the clusters that stop or start being free |
| Partition.Partition.LastCluster | modules/libfat/file_allocation_table.c:363-369 | the end of the chain that a cluster is on |
| Partition.Partition.FreeClusterCount | modules/libfat/file_allocation_table.c:374-386 | the number of free clusters in the table |
| DataRegion.FlatSplice | modules/libfat/file_allocation_table.h:60-66 | storing bytes in a cluster of a chain is storing them at the chain's corresponding bytes |
| DataRegion.ClustersInOrder | modules/libfat/file_allocation_table.h:60-64 | the first cluster is at the start of the data region, each other behind the one before, and the root directory where it should be |
| FileRead.ReadHead | modules/libfat/fatfile.c:452-471 | to the end of the sector; from a position past its cluster the bytes behind the cluster |
| FileRead.ReadClusterHead | modules/libfat/fatfile.c:473-492 | whole sectors to the end of the cluster, or as many as are wanted |
| FileRead.ReadNext | modules/libfat/fatfile.c:494-507 | from a cluster edge to the next cluster, where the position denotes the same byte; it fails exactly at the end of the chain with something left to read |
| FileRead.ReadClusters | modules/libfat/fatfile.c:509-546 | whole clusters, in groups that are consecutive on the disc, are the chain's bytes |
| FileRead.ReadTail | modules/libfat/fatfile.c:548-570 | the sectors and bytes that are left |
| FileRead.Fetch | modules/libfat/fatfile.c:448-573 | all phases together return the chain's bytes from the position on, as many as are wanted or as there are |
| FileRead.PastClusterRightIffAdjacent | modules/libfat/fatfile.c:452-471 | with the chain in the table, reading past a cluster is right whatever the clusters hold exactly if the next cluster follows on the disc |
| FileWrite.NextForWrite | modules/libfat/fatfile.c:587-618 | at a cluster edge the position moves to the next cluster, which is allocated at the end; it fails only at the end of the chain with no cluster free |
| FileWrite.WriteFront | modules/libfat/fatfile.c:779-824 | the first phases of a write store exactly the bytes they report |
| FileWrite.WriteClusters | modules/libfat/fatfile.c:826-875 | whole clusters in consecutive groups, allocated as needed; the count is exact when clusters run out |
| FileWrite.WriteBack | modules/libfat/fatfile.c:877-905 | the sectors and bytes that are left; at the end of a file the rest of the sector is zeroed |
| FileWrite.Transfer | modules/libfat/fatfile.c:779-909 | exactly the reported prefix is in the chain, the rest of it is unchanged, the chain grew only as needed; a short count means that the chain is full and no cluster is free; between two clusters the position is the end of the first |
| FileExtend.ExtendTo | modules/libfat/fatfile.c:623-701 | as many zeros as the file grows by are stored from the computed end on, which is the end of the file exactly if no cluster is superfluous; the other bytes stay, exactly the clusters needed are added, and the position is where the zeros end; it fails exactly if the clusters run out |
| FileExtend.EndPlace | modules/libfat/fatfile.c:631-650 | the computed position, in the last cluster of the chain, is that of the end of the file exactly if the chain has no superfluous cluster; where it is otherwise |
| FileExtend.EndMoves | modules/libfat/fatfile.c:631-650 | what is stored from the computed end on moves it by as much, whether or not it is the end of the file |
| FileSeek.SeekTargetExact | modules/libfat/fatfile.c:948-978 | the target formed in 32-bit words is right exactly below 2^32, and refused from 2^31 on |
| FileSeek.Locate | modules/libfat/fatfile.c:980-1022 | the shortcut from the current cluster, deferred form included, finds the place that the walk from the start finds |
| FileSeek.WalkArrives | modules/libfat/fatfile.c:996-1022 | that place denotes the position, in deferred form only at the end of the chain |
| OpenFile.File.Open | modules/libfat/fatfile.c:259-303 | the positions set up by an open denote the start and, for appending, the computed end of the file; truncation frees the chain |
| OpenFile.AppendRightIffSnug | modules/libfat/fatfile.c:286-299 | the append position, in the last cluster of the chain, is that of the end of the file exactly if the size needs every cluster |
| OpenFile.File.Read | modules/libfat/fatfile.c:411-581 | a read returns the file's bytes at the position: as many as asked for, or fewer only up to the end of the file; it says what a read returns whose length wraps around, and one past the end of a cluster |
| OpenFile.ClampRightIffNoWrap | modules/libfat/fatfile.c:442-446 | the clamp to the end of the file is right exactly if the sum does not wrap |
| OpenFile.File.Write | modules/libfat/fatfile.c:703-928 | the file is the old one with exactly the reported bytes stored and a gap zeroed, and others' bytes stay; the count is exactly what the file's clusters and the free ones before the call hold; what is stored at or past the end of a file with superfluous clusters, and where; after a short write the chain is full; exactly which places are kept |
| OpenFile.File.Seek | modules/libfat/fatfile.c:931-1029 | the position is the sum of the base and the offset, if that is below 2^31, or nothing changes; the saved place is that of a walk from the start |
| OpenFile.File.GrowTo | modules/libfat/fatfile.c:1101-1135 | growing keeps the bytes and adds zeros, or stores them from the computed end on if the file has superfluous clusters; it succeeds exactly if the file's clusters and the free ones before the call hold them; what a failure leaves; when the saved place survives |
| OpenFile.File.ShrinkTo | modules/libfat/fatfile.c:1136-1168 | shrinking keeps exactly the prefix and its clusters, the others are free; when the saved place survives |
| OpenFile.File.Ftruncate | modules/libfat/fatfile.c:1068-1178 | the file cut or grown to the new size; the result as a condition on the state before; what a failure leaves |
| FileSession.Run | modules/libfat/fatfile.c:411-1029 | every run of seeks, reads and writes behaves as on a plain file of bytes and a position that can grow to a fixed size, and changes nobody else's bytes; the operations at which a run ends early, exactly; `StepSeeks`, `StepReads` and `StepWrites` say what the plain file does |
| FileSession.StepSeeks | modules/libfat/fatfile.c:931-1029 | in the plain file a seek goes to the sum of base and offset if that is from 0 to below 2^31, and is refused otherwise up to 2^32 |
| FileSession.StepReads | modules/libfat/fatfile.c:411-581 | in the plain file a read returns the bytes at the position, and fewer than asked for only if it reaches the end |
| FileSession.StepWrites | modules/libfat/fatfile.c:703-928 | in the plain file a write stores all of its data or as much as fits, zeros fill a gap before it, and all other bytes stay |
| FileSession.ReadsBack | modules/libfat/fatfile.c:411-1029 | what was written is what a seek back and a read return |
| FileSession.TwoWritesAreOne | modules/libfat/fatfile.c:703-928 | two complete writes, one behind the other, are one write of both |
| BlankPartition.BlankTable | modules/libfat/file_allocation_table.c:38-114 | a table of zeros has no chain, and a search from the first cluster on is sound |
| BlankPartition.NewFile | modules/libfat/fatfile.c:119-312 | a new file on a blank partition is one that a run can start with |
| BlankPartition.WriteAndReadBack | modules/libfat/fatfile.c:411-1029 | on a blank partition exactly as much is written as all clusters hold, and all of it is read back after a seek |
| BlankPartition.EndsBetweenClusters | modules/libfat/fatfile.c:866-874 | a write that leaves the saved sector past the end of its cluster in mid-file |
| BlankPartition.AppendsPastPosition | modules/libfat/fatfile.c:910-915 | an append after which the saved place is not that of the current position |
| ForeignByte.ReadsForeignByte | modules/libfat/fatfile.c:452-471 | a run with two files whose clusters were taken in turn, in which a read returns a byte of the other file |
| OpenFileList.FileList.Insert | modules/libfat/fatfile.c:305-314 | an opened file becomes the first of a well-linked list |
| OpenFileList.FileList.Remove | modules/libfat/fatfile.c:395-404 | a closed file is taken out, the others keep their order, and the links stay right |
| LongNames.PackSlot | modules/libfat/directory.c:1067-1091 | a slot holds its part of the name, the null unit and the padding |
| LongNames.ChecksumRotates | modules/libfat/directory.c:378-385 | the checksum of one byte more is the checksum before rotated right by one bit, plus that byte, in eight bits; of no bytes it is 0 |
| LongNames.PackedBytes | modules/libfat/directory.c:1069-1090 | every byte of a part: ordinal, attributes, checksum, zeros, and the units with a null unit behind the name and 0xFFFF behind that |
| LongNames.CollectsMore | modules/libfat/directory.c:349-371 | reading parts from the last to the first collects the name in the buffer |
| Directory.Directory.GetNextEntry | modules/libfat/directory.c:308-413 | the scan over the partition's slots finds the next entry with its name, its data and the positions of its first and last slot, or none, or leaves its buffer; `ForeignName.ReadsForeignName` and `DirectoryScan.PlainScan` say what it makes of slots by their bytes |
| DirectoryScan.ScanReadsBack | modules/libfat/directory.c:335-400 | a scan that reaches a packed entry returns its name and where its slots start and end, whatever it has seen before |
| DirectoryScan.ScanFrame | modules/libfat/directory.c:335-400 | a scan depends only on the slots up to the entry it returns |
| ForeignName.ReadsForeignName | modules/libfat/directory.c:335-400 | the slots of an entry that another system wrote, byte by byte, are read as its long name, wherever they are and whatever came before |
| DirectoryScan.PlainScan | modules/libfat/directory.c:344-400 | without a long name begun, a scan passes over volume labels, deleted entries and deleted parts of names; it ends at a zero byte, and any other slot without a part of a long name is the entry, with its first eleven bytes as its name |
| Directory.Directory.FindEntryGap | modules/libfat/directory.c:705-775 | on the partition: the gap is the first run of enough freed slots, or starts at the end marker and is short by the freed slots before it; it is found exactly if there is such a run or the chain has or can get the slots; no other chain's bytes change |
| Directory.Directory.AddEntry | modules/libfat/directory.c:1049-1097 | on the partition: the entry's slots are in the gap, earlier slots stay, the end marker survives exactly if no freed slots were directly before it, and no other chain's bytes change |
| DirectorySlots.AddedReadsBack | modules/libfat/directory.c:1049-1097 | an added long name is read back; earlier and later entries scan as before; the scan ends behind the last entry |
| Directory.Directory.RemoveEntry | modules/libfat/directory.c:678-703 | on the partition: exactly the entry's slots are marked free, and no other chain's bytes change |
| DirectorySlots.RemovedIsSkipped | modules/libfat/directory.c:347-350 | a scan passes over a removed entry |
| DirectoryPosition.Step | modules/libfat/directory.c:274-306 | a step reaches the next slot, of a chain or of the fixed root directory; at the end it is refused, or adds a zeroed cluster exactly if the directory may grow, is a chain, and a cluster is free |
| DirectoryPosition.SlotPut | modules/libfat/directory.c:1091-1095 | storing a slot at its position changes that slot of the directory and nothing of the table and the other chains |
| DirectoryPosition.OnePosition | modules/libfat/directory.c:691-693 | two positions are equal exactly if they are those of the same slot |
| NetFrames.StepKeeps | modules/netslug_main/main.c:746-974 | every step of every thread and interrupt keeps the lockstep invariant |
| NetFrames.SameFrames | modules/netslug_main/main.c:762-835 | in every run, frame 5 coming early included, both consoles hold the same data for every frame but frame 5 that both have reached, and keep it while they are at the frame; of frame 5 they differ at most in the first two controllers; every other frame after frame 0 has the third and fourth controllers disconnected (-1), and the frames before frame 5 all four |
| NetFrames.FramesAreReadings | modules/netslug_main/main.c:951-971 | these data are the readings that each console's controller thread took for that frame |
| NetFrames.SeedsOfFrames | modules/netslug_main/main.c:790-791 | in every run the frames reached have the seeds they were sent with, and these are the values of the 64-bit generator from 0 on |
| NetFrames.BoundedSkew | modules/netslug_main/main.c:1109-1132 | a console past frame 5 is at most three frames ahead, one before that at most five; each ring holds exactly the current frame and the next four |
| NetFrames.EarlyFrameStops | modules/netslug_main/main.c:899-905 | once a guest has taken frame 5 at frame 0 it never passes frame 4, and the host never passes frame 5 |
| NetFrameFive.FrameFiveDiffers | modules/netslug_main/main.c:783-789 | a run in which the consoles hold different data for frame 5, which the agreement leaves out |
| NetFrameFive.EarlyFrameHappens | modules/netslug_main/main.c:899-905 | a run after which frame 5 comes early and the guest is stuck |
| NetDisc.StepBarrier | modules/netslug_main/main.c:393-447 | every step keeps the invariant of the two tables of disc reads, whatever reads get ready |
| NetDisc.CallbackBarrier | modules/netslug_main/main.c:1134-1194 | a callback is made at most once per console, after both issued the read and it completed there; both make the same callbacks at the same frames |
| NetDisc.CallbackKnown | modules/netslug_main/main.c:1185-1194 | the branch for an unknown callback is never taken |
| NetLostRead.TwoReadyLoseOne | modules/netslug_main/main.c:799-815 | a run after which two reads are ready for one frame, one of which is lost by sending it |
| NetLostRead.FrameZeroLosesRead | modules/netslug_main/main.c:799-815 | a run after which a read is ready for frame 0, and is lost by sending it |
| NetLostRead.LosesNoneIffOneReady | modules/netslug_main/main.c:799-815 | sending a frame loses no ready read exactly if at most one is ready, and none for frame 0 |
| NetLostRead.LostForever | modules/netslug_main/main.c:1134-1194 | the callback of a lost read is never made, on any continuation and either console |
| NetLostRead.NoReadLost | modules/netslug_main/main.c:799-815 | on a run in which no send has two ready reads, or one for frame 0, every read that both consoles reported is named by the next frame, if it was not before, and called back on each console that reaches that frame |
| NetProgress.NoDeadlock | modules/netslug_main/main.c:746-974 | in every state of a run with at most as many reads outstanding as the table holds some step can happen |
| NetProgress.FewReadsFit | modules/netslug_main/main.c:393-448 | with so few reads outstanding the host's table has room for the next reported one |
| NetProgress.RoomIffFewKnown | modules/netslug_main/main.c:393-448 | the next reported read finds room exactly if the host knows of at most 20 reads with it |
| NetFullTable.TwentyOneReadsJam | modules/netslug_main/main.c:420-431 | a run with 21 outstanding reads after which the host hangs on its full table |
| NetFullTable.JammedForever | modules/netslug_main/main.c:420-431 | on every continuation it takes no packet any more and never gets past the frame for which it has the guest's input |
| NetProgress.FrameComes | modules/netslug_main/main.c:746-974 | only so many steps can follow each other, by the work left and the disc reads issued, before a console moves on |
| NetMachine.Machine.ProcessInput | modules/netslug_main/main.c:455-472 | a reading goes into the slot of its frame |
| NetMachine.Machine.ReadController | modules/netslug_main/main.c:938-974 | one round of the controller thread, which takes a reading exactly if its frame is at most three ahead and its slot is for it |
| NetMachine.Machine.IoctlBufferAllocator | modules/netslug_main/main.c:393-448 | the entry for a sector: its own, else the first free one |
| NetMachine.Machine.ProcessDiscRead | modules/netslug_main/main.c:479-483 | the entry is marked as issued by the client |
| NetMachine.Machine.OurCallback | modules/netslug_main/main.c:670-677 | the entry of a completed read is marked |
| NetMachine.Machine.SendFrame | modules/netslug_main/main.c:762-838 | one round of the host's send thread: the frame sent, with its number, the next seed of the generator and the absent controllers disconnected, and the new state |
| NetMachine.Machine.ReceiveFrame | modules/netslug_main/main.c:899-930 | one round of the guest's receive thread: the merged frame |
| NetMachine.Machine.Retrace | modules/netslug_main/main.c:1107-1260 | the interrupt stalls exactly if something is missing, and otherwise moves on, makes the callback and recycles the slot |
| NetMachine.SendBuffer.Put | modules/netslug_main/main.c:490-506 | the ring of packets is a queue of at most five: a packet goes in at the back |
| NetMachine.SendBuffer.Take | modules/netslug_main/main.c:838-862 | the oldest packet comes out |
| ElfLayout.RoundUpLeast | src/libelf/_elftc.h:305 | the rounded offset is the least multiple of the alignment that is not smaller |
| ElfLayout.DescriptorsApart | src/libelf/elf_update.c:195-266 | descriptors are aligned, disjoint and inside the section |
| ElfLayout.ComputeSectionExtents | src/libelf/elf_update.c:111-337 | a section is laid out behind what is before it, or the fault of its type or of its first faulty descriptor is reported |
| ElfLayout.DescriptorsAlignedInFile | src/libelf/elf_update.c:284-310 | with power-of-two alignments every descriptor is aligned in the file, too |
| ElfLayout.TypeAlignedIff | src/libelf/elf_update.c:739-740 | every place behind the header that alignment can yield fits the section's type exactly if the section's alignment is a multiple of the type's |
| ElfPlacement.FaultlessIff | src/libelf/elf_update.c:146-231 | a section has no fault exactly if its type is known and all of its descriptors have a known type, the object's version, a power of two as their alignment and whole elements |
| ElfPlacement.FaultIsFirst | src/libelf/elf_update.c:199-231 | the fault reported is that of the first improper descriptor |
| ElfPlacement.SectionPlace | src/libelf/elf_update.c:151-310 | a section starts at the first multiple of the largest of the alignment its header, or else its type, asks for and those of its descriptors |
| ElfPlacement.DescriptorPlace | src/libelf/elf_update.c:195-266 | each descriptor goes to the first multiple of its alignment behind the one before, and the section ends with the last |
| ElfPlacement.MissingAlign | src/libelf/elf_update.c:151-152 | a section whose header asks for no alignment starts at a multiple of its type's |
| ElfPlacement.SectionsFollow | src/libelf/elf_update.c:441-478 | each section starts at the first multiple of its alignment behind the last one that is in the file |
| ElfExtents.Object.ExtentIsUnused | src/libelf/elf_update.c:358-394 | a stretch is free exactly if it overlaps no extent; its place in the list |
| ElfExtents.Object.InsertExtent | src/libelf/elf_update.c:400-435 | the list stays ascending and disjoint; an extent is refused exactly if it overlaps |
| ElfExtents.Object.ResyncSections | src/libelf/elf_update.c:441-478 | the sections' extents follow each other, and no layout conflict is possible |
| ElfExtents.Object.ResyncElf | src/libelf/elf_update.c:502-700 | header, program headers, sections and section headers in ascending, disjoint, aligned extents; the size is where the last one ends |
| ElfWriter.WriteSection | src/libelf/elf_update.c:705-817 | a section is written from its start to its end with its holes filled, exactly if it starts at a multiple of its type's alignment and all of its descriptors have buffers, as the writer asserts |
| ElfWriter.ByteOfData | src/libelf/elf_update.c:768-812 | each byte of a section is the one at its place in the descriptor that covers it, or the fill character |
| ElfWriter.WriteElf | src/libelf/elf_update.c:994-1052 | every byte of the file is defined exactly once, by an extent or as filler, and the three checks hold, exactly if the sections pass these assertions |
| ElfWriter.ByteOfFile | src/libelf/elf_update.c:994-1052 | each byte of the file is the one at its place in the extent that covers it, or the fill character if none does |
| ElfWriter.Update | src/libelf/elf_update.c:502-1052 | the file is header, program headers, the sections with space one behind the other, and section headers, each at its place, with filled gaps; sections that ask for no alignment are at multiples of their types'; an assertion stops it exactly if a section in the file is at no multiple of its type's alignment or has a descriptor without a buffer, which is said both by the offsets given and by the sections before the layout |
| ElfWriter.CoveredIsWritten | src/libelf/elf_update.c:739-740 | a section whose alignment is a multiple of its type's and whose descriptors have buffers does not stop the writer, whatever comes before it |
| ElfWriter.MissingAlignIsWritten | src/libelf/elf_update.c:151-152 | a faultless section with buffers that asks for no alignment never stops the writer |
| ElfWriter.UpdateAborts | src/libelf/elf_update.c:739-794 | two faultless objects that are not written, for either reason |
| ElfWriter.SymbolTableIsWritten | src/libelf/elf_update.c:151-152 | one byte and a symbol table without an alignment of its own are written, the table at offset 56 |
| ElfStrptr.Search | src/libelf/elf_strptr.c:66-131 | the search finds the descriptor before the first faulty one that has the offset by its own count, or fails for one of two reasons |
| ElfStrptr.SearchAgreesIffNotMoved | src/libelf/elf_strptr.c:93-127 | for byte data that count agrees with the layout on all descriptors with bytes exactly if no empty one moves the next |
| ElfStrptr.SearchAgreesWithLayout | src/libelf/elf_strptr.c:93-127 | then they agree on every offset |
| ElfStrptr.SearchAgreesWithoutEmpty | src/libelf/elf_strptr.c:93-127 | without empty descriptors they always do |
| ElfStrptr.EmptyDescriptorDisagrees | src/libelf/elf_strptr.c:100-101 | an empty descriptor that moves the next one, and an offset they disagree on |

## Left out

- Disc.Disc: from the partition on up, transfers are taken to succeed; the cache's own contracts cover failing ones, where a failed write may have changed its sectors and a failed read hands over nothing.
- The access counter is one per cache, not shared by all caches, and recency is claimed until it wraps.
- Cached pages are byte strings in an array of entries, replaced as a whole when a part of one is stored.
- Sectors outside the partition: a page fetch there reads with a wrong count, and callers must not ask for one. For that reason `OpenFile.File.Read` requires that the sector behind the cluster is one of the partition's in the one case in which it is read, and `Partition.Partition.LinkFreeClusterCleared` that the ones it zeroes are.
- FAT32 entries are compared as 32-bit values, as in the code; chains therefore have the top four bits clear.
- The boot sector, the FS-info sector and mounting: the geometry is a parameter, with disjoint regions and a table that has room for one entry more than the last cluster's.
- Path lookup, directory flags, `errno`, file times, attributes, `FAT_fstat` and the write-back of directory entries on close.
- OpenFile.File.Write: for a position beyond the end, position and length together must stay below 2^32.
- Counts are returned as they are, also above 2^31, where the signed return type of the code cannot hold them.
- A seek forms its sum in two's complement; signed overflow in C is taken to wrap.
- FileSession.Run: the file is opened for reading and writing, not for appending; a run ends at a write past the end of a file that has superfluous clusters.
- Directory.Directory.AddEntry: the code's free search must not start at a stray hint, as for files.
- Conversion of names from and to UTF-8, short-name generation, volume labels and `entryFromPosition`. Names are UCS-2 units and the eleven bytes of the alias are given; names over 247 units, which overrun the buffer, are excluded.
- Sockets, IOS calls and threads' scheduling: streams are queues, a waiting thread is a step that is not enabled, and interrupt-disabled regions, the sending of a packet and the receiving of one are single steps.
- Frame 5: which of the first two controllers' data each console holds depends on when the readings for it are taken.
- NetProgress.NoDeadlock: no more reads may be outstanding than the host's table has entries, and frame 5 must not come early; the runs that end otherwise are `NetFullTable.TwentyOneReadsJam` and `NetFrameFive.EarlyFrameHappens`.
- A disc request that is refused at once, controller callbacks, sampling, random numbers and everything drawn on the screen.
- The status of a disconnected controller is -1; the controller library's header, which defines it, is not part of this model.
- A console's state in `NetMachine` keeps the guest's send buffer as a sequence; `NetMachine.SendBuffer` is the ring that implements it.
- The other layout mode, in which the application places sections, archives, the rest of libelf, element translation and 32-bit truncation of offsets: element sizes are parameters and a descriptor's translated bytes are given.
- ElfStrptr.Search: the checks before the search, of the section's type and size, and the search by stored offsets in the other layout mode.
- ElfExtents.Object: section header entries are written in one piece, in the order of the sections.
