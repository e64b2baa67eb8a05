# TomahawkOS, verified

A Dafny model of the stateful cores of the TomahawkOS kernel, with proofs that each of them behaves like the simple
object it stands for.

| files | models | stands for |
|---|---|---|
| `FatLayout`, `FatVolume`, `FatChains`, `FatMount`, `FatContent`, `FatInvariant`, `FatFiles`, `FatRuns` | the FAT32 driver: mirrored allocation table, cluster chains, file input and output, directory entries | directories, files in them, and a byte sequence for each file |
| `ShortNames` | 8.3 names with case bits | the name itself |
| `Links`, `CacheModel`, `BufferCache` | the write-back block cache: hash buckets, LRU list, free list | one flat byte array per device |
| `Paging`, `PageTables`, `Mmu` | four-level page tables | a map from page to entry |
| `FrameAlloc` | the frame bitmap | a set of free frames |
| `CopyOnWrite`, `CowTables`, `CowView` | cloning address spaces copy-on-write, the write fault, reference counts | eager copies |
| `Scheduler`, `Family`, `Processes` | ready queue, process tree, wait, exit, reparenting | a first-in-first-out queue; a forest in which no dead child is lost |
| `Pipes` | the pipe ring, interleaved where its code yields | a bounded queue |
| `Descriptors` | open files and descriptor tables | counts of references |
| `Shadow` | the shadow file's printer and reader | the user table |
| `Tcp`, `Checksum` | in-order reception; the Internet checksum (section 1 of RFC 1071) | a prefix of the peer's stream; a residue modulo 65535 |

Four results are refinements over whole runs: `FatRuns.Run` (files), `BufferCache.Run` (blocks),
`CowView.AddressSpaces.Run` with `CopyOnWrite.RunRefines` (memory, from page tables over the copy-on-write machine to eager
copies) and `Pipes.Pipe.Run` (streams). The FAT32 driver runs over the block cache: `FatRuns.Survives` says what the device
alone holds, `FatRuns.RoomMeansInFull` and `FatRuns.NothingLost` what a run does with the clusters.
`Processes.ProcessTable.Run`, `Descriptors.FileTable.Run` and `Tcp.Connection.Run` relate every step of a run and carry
invariants over it.

Code that changes state is modelled by classes whose methods have the source's branches and loops. Pointers become
indices into sequences, with -1 (or 0, where the source uses 0) for null. Ghost fields spell out what the links mean.
Integers are unbounded; where the source's width matters (sequence numbers, the 32-bit size field, the scan's
arithmetic, the checksum accumulator) the wrap-around is written out.

Where a promise does not hold for all inputs, the exact condition is proved as an if-and-only-if; where a run leads to the
failure, a method performs it. These are: the allocator's hint (`FatChains.ScanCompleteIff`), zeros behind a file's end
(`FatContent.WriteRefinesIff`), the 4 GiB limit (`FatInvariant.WriteIsFlatIff`, and `FatRuns.Run`), clusters of a removed
file (`FatFiles.FileSystem.Remove`, the leak reached in `FatRuns.LostClusters`), the vnode of a removed file
(`FatInvariant.StaleWriteIff`, reached in `FatRuns.StaleVnode`), freeing a head twice (`BufferCache.Cache.Invalidate`, reached
in `FailedReadThenInvalidate`), cloning a space that still has copy-on-write pages (`CopyOnWrite.CloneKeepsIff`, and the
stores that show it in `CloneLeaks`), the free-page counter
(`FrameAlloc.CounterExactIff`, `CountedTwice`), files of a failed fork (`Descriptors.CountIsLiveIff`, `FailedForkLeaks`), two
sleeping writers (`Pipes.StoreIff`), names in the shadow file (`Shadow.ReadsBackIff`), the administrator flag
(`Shadow.PrintsAgainIff`), streams of 4 GiB (`Tcp.PlacesIff`, `Tcp.LateSegment`), short names (`ShortNames.FoundIff`, `IdenticalIff`).
For frames behind the end of the count table there is a run that fails (`CowView.UncountedBoot`) and a condition under which
none does (`CowView.Boot`), with a gap between them that is named below.

To verify the whole project with Dafny 4.11: `dafny verify dfyconfig.toml`.

## Model

| member | source | states |
|---|---|---|
| FatLayout.FatSlotsApart | OS/src/kernel/src/fat32.c:103-142 | the slots of any two different entries, in the same copy of the table or in different ones, do not overlap |
| FatLayout.ClusterPlace | OS/src/kernel/src/fat32.c:263-290 | a data cluster's bytes lie inside the device, behind every table copy |
| FatLayout.ClustersApart | OS/src/kernel/src/fat32.c:263-290 | the byte ranges of different clusters are disjoint |
| FatVolume.EntryLayout | OS/src/kernel/src/fat32.c:103-116 | on the device a table entry is four bytes, least significant first, at four times the cluster number from the start of its copy |
| FatVolume.ClusterLayout | OS/src/kernel/src/fat32.c:263-290 | cluster 2 lies behind the last table copy, and the clusters follow in order |
| FatVolume.PutEntry | OS/src/kernel/src/fat32.c:123-142 | storing one 32-bit word in one copy changes that slot of that copy and no other entry, copy or cluster |
| FatVolume.PutCluster | OS/src/kernel/src/fat32.c:286-290 | storing one cluster changes no table entry and no other cluster |
| FatVolume.StoreEntry | OS/src/kernel/src/fat32.c:123-142 | one turn of the loop over the copies: one more copy holds the new value in its low 28 bits and its own old top four bits, and nothing else moved |
| FatVolume.EntryInAll | OS/src/kernel/src/fat32.c:123-142 | after the last turn the table as read has the new value at one place and the copies agree |
| FatVolume.Volume.ReadBytes | OS/src/kernel/src/fat32.c:74-78 | the requested bytes of the flat device, read through the block cache |
| FatVolume.Volume.WriteBytes | OS/src/kernel/src/fat32.c:83-87 | an overlay of the flat device, written through the block cache |
| FatVolume.Volume.Sync | OS/src/kernel/src/block_device.c:391-415 | afterwards the device itself holds what the cache shows |
| FatVolume.Volume.DeviceEncodes | OS/src/kernel/src/fat32.c:1357-1358 | then the bytes of the device alone encode the table and every cluster |
| FatVolume.Volume.FatRead | OS/src/kernel/src/fat32.c:103-116 | the entry read is that of the abstract table, in 28 bits |
| FatVolume.Volume.FatWrite | OS/src/kernel/src/fat32.c:123-142 | the abstract table is updated at one place, the copies stay equal in their low 28 bits, the data area is untouched |
| FatVolume.Volume.ReadCluster | OS/src/kernel/src/fat32.c:263-280 | returns the cluster's bytes; refuses numbers below 2 |
| FatVolume.Volume.WriteCluster | OS/src/kernel/src/fat32.c:286-290 | replaces that cluster's bytes and nothing else |
| FatChains.ChainFits | OS/src/kernel/src/fat32.c:162-177 | a chain has at most as many links as there are data clusters, so the safety counters never stop a walk |
| FatChains.Append | OS/src/kernel/src/fat32.c:221-232 | linking a free cluster behind the end gives a chain one longer: still in range, acyclic, ending in the end mark |
| FatChains.OwnedAppend | OS/src/kernel/src/fat32.c:221-232 | growing one owner's chain leaves all chains well formed and no cluster with two owners |
| FatChains.OwnedFree | OS/src/kernel/src/fat32.c:237-257 | freeing one owner's chain leaves every other chain in place |
| FatChains.FlatPut | OS/src/kernel/src/fat32.c:286-290 | rewriting cluster j of a chain overlays the file's flat bytes from j times the cluster size on |
| FatChains.FlatFrame | OS/src/kernel/src/fat32.c:286-290 | chains that do not use a changed cluster keep their flat bytes |
| FatChains.FreeAfterUpdate | OS/src/kernel/src/fat32.c:123-142 | how the number of free entries moves when one entry changes |
| FatChains.ScanOnce | OS/src/kernel/src/fat32.c:184-214 | from a hint up to the end, the wrapping scan visits every data cluster in exactly one step |
| FatChains.ScanCompleteIff | OS/src/kernel/src/fat32.c:184-214 | the scan visits every data cluster if and only if the hint is at most one past the last cluster; mounting copies the hint unchecked |
| FatMount.Mount.FollowChain | OS/src/kernel/src/fat32.c:148-157 | the n-th link of the chain, 0 past its end |
| FatMount.Mount.ChainLength | OS/src/kernel/src/fat32.c:162-177 | the length of the chain; the guard never fires |
| FatMount.Mount.LastCluster | OS/src/kernel/src/fat32.c:1272-1278 | the cluster that carries the end mark |
| FatMount.Mount.AllocCluster | OS/src/kernel/src/fat32.c:184-214 | returns 0 exactly when no cluster is free; otherwise the first free one in scan order, marked as an end; hint in range and free count exact afterwards |
| FatMount.Mount.ExtendChain | OS/src/kernel/src/fat32.c:221-232 | links a new end to the chain or, on a full volume, changes nothing |
| FatMount.Mount.FreeChain | OS/src/kernel/src/fat32.c:237-257 | frees exactly the chain's clusters and keeps the count exact; the guard never fires |
| FatContent.WriteRefinesIff | OS/src/kernel/src/fat32.c:1235-1361 | the write at cluster level is the flat write (old content, zero-filled, overwritten) if and only if the chain bytes between the old end and the offset are zero |
| FatContent.WriteRefines | OS/src/kernel/src/fat32.c:1235-1361 | with zeros behind the file's end the write is the flat write, and there are zeros behind the new end |
| FatContent.ReadAfterWrite | OS/src/kernel/src/fat32.c:855-910 | reading back a write returns it, and elsewhere the old content |
| FatContent.ByteByByte | OS/src/kernel/src/fat32.c:855-910 | which byte a read returns at each place and when it is short; which byte stands where after a write, zeros in the gap |
| FatContent.DirentRoundTrip | OS/src/kernel/src/fat32.c:1055-1088 | the patched directory entry reads back as cluster and size, and every other entry is unchanged |
| FatContent.DirentLayout | OS/src/kernel/src/fat32.c:1070-1084 | the bytes of an entry that hold the halves of its first cluster and its size |
| FatInvariant.WriteIsFlatIff | OS/src/kernel/src/fat32.c:1235-1361 | the content after a write is the old one, zero-filled to the offset and overwritten by what was accepted, also when the disk fills part-way, if and only if the accepted bytes end below 4 GiB; then the tail stays zero. A refused write leaves the content |
| FatInvariant.WriteIsRecorded | OS/src/kernel/src/fat32.c:1055-1088 | after a write the entry on disk names first cluster and size, and the entries of other files are as before |
| FatInvariant.CreateStep | OS/src/kernel/src/fat32.c:1365-1453 | a new file in an unused slot keeps the whole invariant: chains apart, entries in slots of their own |
| FatInvariant.CreatedSpells | OS/src/kernel/src/fat32.c:1395-1405 | the slot of a new file: the eleven bytes of its name, the archive attribute, the case bits, then zeros |
| FatInvariant.LengthenedLosesNone | OS/src/kernel/src/fat32.c:221-232 | when a chain takes clusters that were free, nothing in use becomes free and the clusters that are in use but in no chain stay the same |
| FatInvariant.RemoveStrays | OS/src/kernel/src/fat32.c:1666-1735 | when a vnode goes, its clusters go astray, all of them, unless its chain is freed, and then none do |
| FatInvariant.StaleWriteIff | OS/src/kernel/src/fat32.c:1304-1345 | other bytes in a cluster leave the bytes of all files and directories as they are if and only if no chain has the cluster |
| FatContent.ReachIff | OS/src/kernel/src/fat32.c:1265-1267 | the 32-bit count of clusters that a write compares is the number needed if and only if the end is at most 2^32 - 1 clusters; beyond that it is too small |
| FatFiles.FileSystem.ReadAt | OS/src/kernel/src/fat32.c:855-910 | returns exactly the requested part of the file's content, short at its end |
| FatFiles.FileSystem.WriteAt | OS/src/kernel/src/fat32.c:1235-1361 | WriteOutcome: which bytes were accepted and why not more, the file's new bytes and 32-bit size, its entry, and that every other vnode kept its bytes; the clusters taken were free, are now its chain's, and nothing else was taken or freed; the content is the flat result if and only if the accepted bytes end below 4 GiB; an accepted write is on the device |
| FatFiles.FileSystem.Reserve | OS/src/kernel/src/fat32.c:1246-1302 | the chain is grown by zeroed clusters until the write fits or the volume is full; the count is cut to what fits |
| FatFiles.FileSystem.Grow | OS/src/kernel/src/fat32.c:1269-1302 | the chain is lengthened as far as needed or possible, by zeros only |
| FatFiles.FileSystem.Fill | OS/src/kernel/src/fat32.c:1304-1352 | the accepted bytes stand in the chain at the offset; the size is the end, cut to 32 bits, if that is later than the old size |
| FatFiles.CopyIn | OS/src/kernel/src/fat32.c:1318-1345 | the cluster-by-cluster copy is one overlay of the flat bytes |
| FatFiles.CopyOut | OS/src/kernel/src/fat32.c:885-906 | the cluster-by-cluster copy is one slice of the flat bytes |
| FatFiles.FileSystem.UpdateDirent | OS/src/kernel/src/fat32.c:1055-1088 | patches the vnode's own entry in its directory's bytes and nothing else |
| FatFiles.FileSystem.FindFreeDirent | OS/src/kernel/src/fat32.c:1178-1231 | the first slot whose first byte is 0 or 0xE5; the directory grows by one zeroed cluster when there is none; fails only on a full volume |
| FatFiles.ScanSlots | OS/src/kernel/src/fat32.c:1188-1206 | no slot before the one found is free |
| FatFiles.FileSystem.PutSlot | OS/src/kernel/src/fat32.c:1461-1492 | overlays one slot of the directory's bytes |
| FatFiles.FileSystem.Create | OS/src/kernel/src/fat32.c:1365-1453 | an empty file listed in the first free slot, and on the device; the slot holds its name, attribute and case bits and is zero otherwise; no other file or entry changes; a cluster is taken for the directory only; fails only on a full volume |
| FatFiles.FileSystem.Remove | OS/src/kernel/src/fat32.c:1666-1735 | marks the slot deleted and frees the chain that the entry names, on the device too; every other file is unchanged; the file's clusters come back if and only if the entry named them or there were none |
| FatRuns.EntryCluster | OS/src/kernel/src/fat32.c:1650-1664 | reads from the directory the first cluster that a file's entry names |
| FatRuns.Perform | OS/src/kernel/src/fat32.c:855-1735 | one operation answers as plain files in directories would and is skipped only if it names no such file, directory or legal name; the volume then shows their next state, if and only if no byte at or behind 4 GiB was accepted; only a removal frees clusters, only the removal of an empty file can lose any; what was accepted is on the device |
| FatRuns.Run | OS/src/kernel/src/fat32.c:855-1735 | over any sequence of reads, writes, creations and removals every reply, and the content and the name of every file after it, are those of plain byte sequences with names, up to the first write of which bytes at or behind 4 GiB are accepted; a step that accepts less than everything leaves a table without a free cluster; each step keeps account of the clusters as in FatRuns.Perform |
| FatRuns.RoomMeansInFull | OS/src/kernel/src/fat32.c:1281-1290 | a run that ends with a free cluster has refused and cut short nothing since its last removal |
| FatRuns.NothingLost | OS/src/kernel/src/fat32.c:1666-1735 | over any run lost clusters stay lost, and a run that removes no empty file loses none |
| FatRuns.Survives | OS/src/kernel/src/fat32.c:1357-1358 | once written back, the device alone decodes to every listed file: its slot starts with the file's name and names a chain whose bytes, up to the size in the slot, are the content |
| FatRuns.LostClusters | OS/src/kernel/src/fat32.c:1281-1290 | on any volume with a cluster left: create, a write behind the end of the volume, remove; the clusters that the refused write took are then neither free nor in any chain, and the volume is full |
| FatRuns.StaleVnode | OS/src/kernel/src/fat32.c:1666-1735 | on any volume: a file that is not empty is removed, another is created and written until the volume is full; the cluster that the first one's vnode still names then belongs to another chain, and any other bytes written there change that owner's bytes |
| Links.PushOnList | OS/src/kernel/src/block_device.c:270-278 | a node pushed on a list that it is not on gives a list; pushed on one that it is on, a loop |
| Links.PushOnLasso | OS/src/kernel/src/block_device.c:435-441 | a list that has become a loop stays one, whatever is pushed |
| Links.LassoIsNoList | OS/src/kernel/src/block_device.c:153-163 | links that close on themselves are no list |
| Links.OnListIff | OS/src/kernel/src/block_device.c:431-433 | a head has a link or is the first one if and only if it is on the LRU list |
| Links.DllRemove | OS/src/kernel/src/block_device.c:82-95 | unlinking keeps both directions of the list in agreement |
| Links.DllAddFront | OS/src/kernel/src/block_device.c:98-107 | adding at the front keeps both directions in agreement |
| CacheModel.CleanMeansSynced | OS/src/kernel/src/block_device.c:391-415 | when no head is dirty the device equals the flat array |
| CacheModel.PlacedSeparate | OS/src/kernel/src/block_device.c:153-192 | no head is in two places: free list, or one bucket and the LRU list |
| CacheModel.CoherentAdmit | OS/src/kernel/src/block_device.c:235-334 | a recycled head shows its new block only, no byte of the old one |
| BufferCache.Cache.constructor | OS/src/kernel/src/block_device.c:196-233 | an empty cache is in order |
| BufferCache.Cache.LruRemove | OS/src/kernel/src/block_device.c:82-95 | the list without that head |
| BufferCache.Cache.LruTouch | OS/src/kernel/src/block_device.c:110-114 | that head becomes the most recently used one |
| BufferCache.Cache.Find | OS/src/kernel/src/block_device.c:117-128 | the head that holds the block, if there is one, found in its bucket |
| BufferCache.Cache.HashAdd | OS/src/kernel/src/block_device.c:131-135 | the head joins its key's bucket |
| BufferCache.Cache.HashRemove | OS/src/kernel/src/block_device.c:138-150 | the head leaves its bucket, the others keep their order; a head in no bucket changes nothing |
| BufferCache.Cache.SyncHead | OS/src/kernel/src/block_device.c:370-389 | a dirty block reaches the device, nothing a reader sees changes |
| BufferCache.Cache.Alloc | OS/src/kernel/src/block_device.c:153-192 | a free head, or the least recently used one that nobody holds, written back first; none exactly when all are busy, pinned or referenced; buffers that are stay cached and as they are |
| BufferCache.Cache.Get | OS/src/kernel/src/block_device.c:235-291 | a head with the block's current bytes, never one that somebody holds for another block; a failed device read leaves the head first on the free list with its key set and marked in use |
| BufferCache.Cache.GetNew | OS/src/kernel/src/block_device.c:293-334 | a held head for the block; until it is filled its old bytes count for no reader |
| BufferCache.Cache.Release | OS/src/kernel/src/block_device.c:336-345 | gives back one hold |
| BufferCache.Cache.Store | OS/src/kernel/src/block_device.c:347-356 | new bytes in a held block: the flat array changes there, the dirty count stays exact |
| BufferCache.Cache.SyncAll | OS/src/kernel/src/block_device.c:391-415 | afterwards no block of the device is dirty and the device equals the flat array |
| BufferCache.Cache.Invalidate | OS/src/kernel/src/block_device.c:417-448 | every head of the device, cached or free, is written back, unlinked, cleared and pushed on the free list, and no other head changes; what readers see is unchanged and the device equals it; the free list is a list, and the cache in order, if and only if no free head carried the device; the count of cached blocks is short by the number of free heads that did |
| BufferCache.Cache.Expel | OS/src/kernel/src/block_device.c:423-444 | one head of the loop: off its bucket and the LRU list if it was on them, cleared, pushed; a head that was free already closes the free list on itself |
| BufferCache.FailedReadThenInvalidate | OS/src/kernel/src/block_device.c:270-278 | from any idle cache: a read of a block that does not exist and then the device's invalidation close the free list on itself and leave the count of cached blocks too low |
| BufferCache.Cache.BlockRead | OS/src/kernel/src/block_device.c:461-500 | returns the requested bytes of the flat array, across blocks |
| BufferCache.Cache.BlockWrite | OS/src/kernel/src/block_device.c:502-550 | overlays the flat array, across blocks |
| BufferCache.Perform | OS/src/kernel/src/block_device.c:461-550 | one operation on the cache is one on flat arrays |
| BufferCache.Run | OS/src/kernel/src/block_device.c:461-550 | over any run of reads, writes, syncs and invalidations the replies are those of one flat byte array per device |
| PageTables.IndicesIff | OS/src/kernel/src/paging.c:116-124 | two addresses use the same entry if and only if they lie on the same page |
| PageTables.NewTableWalk | OS/src/kernel/src/paging.c:90-113 | hanging an empty table under an absent entry changes no translation |
| PageTables.LeafWalk | OS/src/kernel/src/paging.c:140-145 | writing one last-level entry changes what is found for exactly one page |
| PageTables.SameWalk | OS/src/kernel/src/paging.c:94-100 | setting the user bit above the last level changes no translation |
| Mmu.PageMap.CreatePml4 | OS/src/kernel/src/paging.c:83-85 | a new root from a free frame maps nothing; no other table changes |
| Mmu.PageMap.EnsureTable | OS/src/kernel/src/paging.c:90-113 | the table under an entry, made from an unused frame if absent; no translation changes; fails exactly when frames run out |
| Mmu.PageMap.MapPage | OS/src/kernel/src/paging.c:116-145 | success makes exactly that page map the frame of the address with the flags as given, so that its addresses translate to it, with the user bit along the way, and happens if and only if the missing tables fit the free frames; failure changes no translation and leaves no frame free; the new tables are the frames taken, and tables off the way to the page, of this or any other space, are untouched |
| Mmu.PageMap.MapRange | OS/src/kernel/src/paging.c:148-154 | the first k pages are mapped to successive frames with the flags as given, all of them on success, and no other translation changes; it stops short only when no frame is left; tables off the way to the pages, of this or any other space, are untouched |
| Mmu.PageMap.UnmapPage | OS/src/kernel/src/paging.c:157-179 | exactly that page is gone and no table but its last-level one is touched; the code tells the level at which the walk ended |
| Mmu.PageMap.GetPhys | OS/src/kernel/src/paging.c:194-231 | frame plus offset for 4 KiB, 2 MiB and 1 GiB pages, 0 if nothing is mapped |
| Mmu.AddressMoves | OS/src/kernel/src/paging.c:206-230 | inside one page of any size addresses move together, and the page starts at its frame |
| CowTables.CowMap.GetPte | OS/src/kernel/src/paging.c:386-410 | the place of the last-level entry, none for absent tables and large pages |
| CowTables.CowMap.ClonePt | OS/src/kernel/src/paging.c:590-628 | one last-level table: source and copy protected entry by entry, frames made copy-on-write counted twice |
| CowTables.CowMap.CloneEntry | OS/src/kernel/src/paging.c:540-590 | one upper entry: shared for the kernel's half, copied for a large page, otherwise cloned with everything below; nothing beside it changes |
| CowTables.CowMap.CloneLevel | OS/src/kernel/src/paging.c:540-635 | a whole table at any level |
| CowTables.HangingBound | OS/src/kernel/src/paging.c:540-590 | the tables that a clone copies are at most as many as the source's tables, the top one aside |
| CowTables.CowMap.Clone | OS/src/kernel/src/paging.c:523-635 | it succeeds if and only if a frame is free for the top table and for each user table below it; every user page of source and copy is protected, the kernel's half is shared, counts rise by two exactly for the frames made copy-on-write, and no other table in use changes; when frames run out each source page is as it was, or protected with its frame counted as shared |
| CowTables.OthersKeep | OS/src/kernel/src/paging.c:523-635 | address spaces that share only the kernel's half with the source keep all translations |
| CowTables.CowMap.TakeCopy | OS/src/kernel/src/paging.c:475-507 | a private copy of a shared frame; the old count drops by one, the new frame counts one, no other count moves |
| CowTables.CowMap.Fault | OS/src/kernel/src/paging.c:456-520 | the four outcomes; on success only that page's entry changes, to a private copy if the frame is shared, in place if not |
| CowView.MayClone | OS/src/kernel/src/paging.c:606-623 | in a sound machine no user frame is writable twice, so each is counted once per clone |
| CowView.CloneIsStep | OS/src/kernel/src/paging.c:523-635 | cloning the tables is the cloning step of the copy-on-write machine |
| CowView.HalfIsStep | OS/src/kernel/src/paging.c:553-590 | a clone of the tables that stopped half-way is a half-done clone of the machine |
| CowView.OneSlot | OS/src/kernel/src/paging.c:498-512 | changing one page's entry changes one slot of the machine |
| CowView.AddressSpaces.Fork | OS/src/kernel/src/paging.c:523-635 | a clone of a space whose counts have room succeeds if and only if the free frames suffice for its tables, leaves all invariants intact and both spaces reading what an eager copy gives; one that runs out of frames leaves all invariants intact and what every space reads |
| CowView.AddressSpaces.Resolve | OS/src/kernel/src/paging.c:456-520 | the write fault on the tables is the fault of the machine |
| CowView.AddressSpaces.Store | OS/src/kernel/src/paging.c:456-520 | a store through the fault is the store of the machine: afterwards that byte of that page reads what was stored, and every other byte of every page of every space reads as before; a store to the shared kernel image changes what no user page reads |
| CowView.AddressSpaces.NewSpace | OS/src/kernel/src/mm.c:48-64 | a new space joins the others, maps nothing, and shares no table with them |
| CowView.AddressSpaces.Touch | OS/src/kernel/src/page_fault_handler.c:66-112 | a fault on an absent page maps a free frame there, writable, with the bytes that are in it: the machine's touch; it succeeds if and only if the address is allowed and the free frames suffice for page and tables; other spaces keep all translations |
| CowView.AddressSpaces.Unmap | OS/src/kernel/src/paging.c:157-179 | clearing an entry is the machine's unmap |
| CowView.AddressSpaces.Perform | OS/src/kernel/src/paging.c:456-635 | whatever is asked is one step of the machine, done unless no frame is left, and refines the eager machine |
| CowView.AddressSpaces.Run | OS/src/kernel/src/paging.c:456-635 | over any run of new spaces, forks of spaces without copy-on-write pages, stores, first touches and unmaps on the real page tables, each space reads as if it had a private copy |
| CowView.Boot | OS/src/kernel/src/frame_alloc.c:40-104 | from any memory map whose usable frames all have a count: no space yet, and a state from which runs can start |
| CowView.UncountedBoot | OS/src/kernel/src/refcount.c:117-126 | from any memory map with at least nine usable frames behind the end of the count table: spaces are made until such frames are handed out, a page is touched, its space cloned, and a store through the clone; both spaces then map one frame, the clone can write it, and its byte is in what the other reads |
| CopyOnWrite.CloneKeepsIff | OS/src/kernel/src/paging.c:606-628 | a clone keeps the invariant if and only if every copy-on-write frame of the source has room in its count; entries already copy-on-write are not counted |
| CopyOnWrite.CowFreeHasRoom | OS/src/kernel/src/paging.c:606-628 | a source without copy-on-write entries has room |
| CopyOnWrite.StepRefines | OS/src/kernel/src/paging.c:456-635 | each step (new space, clone, half-done clone, store with fault, first touch, unmap) does to what the spaces read what eager copying does, and keeps the invariant |
| CopyOnWrite.StoresOneByte | OS/src/kernel/src/paging.c:456-520 | a store of the eager machine changes one byte of one page and nothing else that any space reads |
| CopyOnWrite.HalfCloneStep | OS/src/kernel/src/paging.c:553-590 | a clone that stopped half-way keeps the invariant and what every space reads |
| CopyOnWrite.RunRefines | OS/src/kernel/src/paging.c:456-635 | so does every run |
| CopyOnWrite.LeakFrom | OS/src/kernel/src/paging.c:472-513 | in every state where a frame has more copy-on-write pages than its count, with frames for the copies, some run of stores ends in one that another space sees |
| CopyOnWrite.CloneLeaks | OS/src/kernel/src/paging.c:606-628 | after every clone without room, with frames free for the copies, some run of stores is not an eager one; with such frames the condition of CloneKeepsIff is exact for what the spaces read |
| CopyOnWrite.SecondCloneLeaks | OS/src/kernel/src/paging.c:606-628 | the condition fails in a reachable state: cloning one space twice without a write in between leads to such a leak |
| CopyOnWrite.UncountedFrameLeaks | OS/src/kernel/src/refcount.c:117-126 | a frame beyond the count table is never seen as shared, so in every state in which two pages share one a store goes through to the other space |
| FrameAlloc.MarkingSet | OS/src/kernel/src/frame_alloc.c:73-84 | setting or clearing one bit adds or removes one frame of the free set |
| FrameAlloc.FrameAllocator.constructor | OS/src/kernel/src/frame_alloc.c:40-104 | the free set is the frames of usable regions from 1 MiB up; the counter counts markings, so it is exact if and only if no two usable regions overlap there |
| FrameAlloc.FrameAllocator.Alloc | OS/src/kernel/src/frame_alloc.c:110-134 | the lowest free frame, 0 exactly when none is free; a counter that is too high stays so by the same amount |
| FrameAlloc.FrameAllocator.Release | OS/src/kernel/src/frame_alloc.c:139-157 | the address's frame is free again; address 0 and frames beyond the bitmap are ignored; frame 0 becomes free, and Alloc's answer ambiguous, if and only if the address lies inside page 0; the counter moves with the free set |
| FrameAlloc.CounterExactIff | OS/src/kernel/src/frame_alloc.c:58-86 | for every memory map, as many frames are free as were counted if and only if no two usable regions overlap above 1 MiB and within the bitmap |
| FrameAlloc.CountedTwice | OS/src/kernel/src/frame_alloc.c:58-86 | two usable regions with one frame in common: one frame can be had, and the counter stays one too high |
| Scheduler.ReadyQueue.Enqueue | OS/src/kernel/src/scheduler.c:28-37 | the thread joins the end of an acyclic, duplicate-free list |
| Scheduler.ReadyQueue.Dequeue | OS/src/kernel/src/scheduler.c:52-59 | the thread that waited longest leaves it |
| Scheduler.ReadyQueue.AddThread | OS/src/kernel/src/scheduler.c:45-49 | ready exactly when queued |
| Scheduler.ReadyQueue.Yield | OS/src/kernel/src/scheduler.c:66-93 | the first in the queue runs, the running thread goes to its end; with an empty queue nothing happens |
| Scheduler.ReadyQueue.Tick | OS/src/kernel/src/scheduler.c:119-159 | the same from the timer, also for the first thread and after the last one has exited |
| Scheduler.ReadyQueue.BlockCurrent | OS/src/kernel/src/scheduler.c:206-222 | switches away from a blocked thread, or lets it run on when nobody else can |
| Scheduler.ReadyQueue.SwitchFromDead | OS/src/kernel/src/scheduler.c:188-204 | switches away from an exited thread, or halts |
| Scheduler.PositionRuns | OS/src/kernel/src/scheduler.c:28-59 | a thread at position k is chosen by exactly the (k+1)-th dispatch from now, whatever is queued in between |
| Family.Adopt | OS/src/kernel/src/proc.c:439-452 | a child in no list joins the front of a parent's list, or none; parent pointers and lists agree, and parents are older than children, so the families are a forest |
| Family.Leave | OS/src/kernel/src/proc.c:620-626 | taking a child out of the middle keeps every list |
| Processes.ProcessTable.Create | OS/src/kernel/src/proc.c:87-127 | a new ready process, child of the caller if there is one, with a pid of its own |
| Processes.ProcessTable.Fork | OS/src/kernel/src/proc.c:137-244 | the same; a failure leaves a gap in the pids and no process (what it leaves in the descriptor counts: Descriptors.FailedForkLeaks) |
| Processes.ProcessTable.FindByPid | OS/src/kernel/src/proc.c:247-256 | the process with that pid, if it is not reaped |
| Processes.ProcessTable.ListRemove | OS/src/kernel/src/proc.c:383-393 | the process list without that process |
| Processes.ProcessTable.Reap | OS/src/kernel/src/proc.c:396-423 | the process leaves the list and loses its pid, once; its exit code is recorded |
| Processes.ProcessTable.Reparent | OS/src/kernel/src/proc.c:429-461 | dead children are reaped in order, living ones go to init or to nobody; nobody else changes |
| Processes.ProcessTable.Exit | OS/src/kernel/src/scheduler.c:161-204 | the process is a zombie, its children are provided for, its waiting parent is ready, the next thread runs; all invariants hold |
| Processes.ProcessTable.Kill | OS/src/kernel/src/signal.c:181-190 | the same with exit code 128 plus the signal |
| Processes.ProcessTable.WaitPid | OS/src/kernel/src/proc.c:577-664 | one pass: the first matching zombie is collected with its own exit code and leaves its list; or there is none, and the caller is told or sleeps; a child is collected if and only if one with the pid asked for, or any for -1, is a zombie, and it is that one |
| Processes.ProcessTable.Continue | OS/src/kernel/src/proc.c:563-574 | a stopped process that was blocked becomes ready |
| Processes.NoLostChild | OS/src/kernel/src/proc.c:577-664 | a dead child is reaped at most once, with its own exit code; until then it stands in its parent's list alone, and a parent that sleeps waits for another pid |
| Processes.ProcessTable.Run | OS/src/kernel/src/proc.c:577-664 | over any run each operation, tick and yield among them, does to threads, queue, processes and families what its row here says and answers so; all invariants hold, the dead stay dead with their exit codes, and queue positions are dispatched in order |
| Pipes.StoreIff | OS/src/kernel/src/pipe.c:86-95 | a stored byte joins the end of the stream if and only if the slot chosen before sleeping is still the next one and not the readers' |
| Pipes.SecondSleeperLosesByte | OS/src/kernel/src/pipe.c:86-95 | of two writers asleep over the same full ring, the second to wake loses its byte |
| Pipes.Pipe.Read | OS/src/kernel/src/pipe.c:46-67 | what a reader does when it runs: waits, ends, or takes the oldest bytes |
| Pipes.Pipe.Write | OS/src/kernel/src/pipe.c:77-97 | a write call up to its end or its first sleep |
| Pipes.Pipe.Burst | OS/src/kernel/src/pipe.c:85-97 | a woken write call up to its end or next sleep |
| Pipes.Pipe.Run | OS/src/kernel/src/pipe.c:46-103 | every interleaving at the yield points, of readers, closings and write calls that do not overlap, is a run of a bounded queue |
| Pipes.RunConserves | OS/src/kernel/src/pipe.c:46-103 | over any run the bytes given out followed by those in the ring are the bytes taken in; at most 4095 are in the ring |
| Pipes.EndOfStream | OS/src/kernel/src/pipe.c:50-54 | a nonempty request gets nothing if and only if everything was read and no writer is left |
| Pipes.ReadTakes | OS/src/kernel/src/pipe.c:46-67 | a reader waits exactly while everything was read and a writer is left; otherwise it gets the oldest unread bytes, as many as asked for or as there are |
| Pipes.CallAnswers | OS/src/kernel/src/pipe.c:77-97 | over any run, whatever happens between the beginning of a write call and its answer: the answer is -1 exactly when there was no reader at the start; otherwise it is the number of bytes that the call added to the stream, they are the first of its bytes, and all of them unless the readers have gone |
| Pipes.SleepsOnlyFull | OS/src/kernel/src/pipe.c:85-92 | a write call sleeps only over a full ring of 4095 bytes, and only while there are readers |
| Descriptors.FileTable.FileAlloc | OS/src/kernel/src/fd.c:27-39 | the first unreferenced file, as a new opening with one reference |
| Descriptors.FileTable.FileFree | OS/src/kernel/src/fd.c:41-52 | one reference less; the last one closes the opening |
| Descriptors.FileTable.FdAlloc | OS/src/kernel/src/fd.c:56-66 | the lowest free descriptor, one reference more |
| Descriptors.FileTable.FdClose | OS/src/kernel/src/fd.c:68-75 | the descriptor is free; the opening is closed exactly if this was its last reference |
| Descriptors.FileTable.Dup | OS/src/kernel/src/fd.c:82-86 | a second descriptor for the same file |
| Descriptors.FileTable.Clone | OS/src/kernel/src/fd.c:88-97 | the child's table equals the parent's |
| Descriptors.FileTable.CloseFrom | OS/src/kernel/src/fd.c:99-106 | all descriptors from a number on are closed |
| Descriptors.FileTable.InitStdio | OS/src/kernel/src/fd.c:136-150 | three descriptors, one to read and two to write, each with a console file of its own; one is missing only if the pool has no file left |
| Descriptors.FileTable.Open | OS/src/kernel/src/syscall.c:782-791 | one new file with one descriptor; or, exactly when pool or table is full or there is no process, no change of counts or tables, with the code that says which |
| Descriptors.FileTable.PipeCreate | OS/src/kernel/src/pipe.c:131-182 | two new files with one descriptor each; it fails exactly when there is no process, no ring, or fewer than two free files or descriptors, and then tables and counts are unchanged |
| Descriptors.ClosedIff | OS/src/kernel/src/fd.c:41-75 | an opening that had a descriptor is closed, and once only, if and only if no slot of any process refers to it any more |
| Descriptors.CountIsLiveIff | OS/src/kernel/src/proc.c:168-217 | a file's count is the number of slots that processes have for it if and only if no failed fork cloned a table that held it |
| Descriptors.NeverClosed | OS/src/kernel/src/proc.c:168-217 | an opening that a failed fork's table holds is closed in no later state |
| Descriptors.FailedForkLeaks | OS/src/kernel/src/proc.c:168-217 | from any state: a process opens a file, fails to fork and is reaped; nobody has the file and it was not closed |
| Descriptors.FileTable.Run | OS/src/kernel/src/fd.c:27-150 | over any run, failed forks among it, each operation does to the tables what it should, each count equals the number of slots in all tables, those that failed forks left among them, and no opening is closed twice |
| Shadow.HexRoundTrip | OS/src/kernel/src/password_store.c:92-124 | decoding what was encoded gives the bytes back, and the digits contain no separator |
| Shadow.HexSpells | OS/src/kernel/src/password_store.c:92-105 | byte i of the data is spelt by digits 2i and 2i + 1, upper half first, in lower case |
| Shadow.DigitIs | OS/src/kernel/src/password_store.c:107-114 | a digit's value, for either case |
| Shadow.EncodeHex | OS/src/kernel/src/password_store.c:92-105 | the loop computes the hexadecimal text |
| Shadow.DecodeHex | OS/src/kernel/src/password_store.c:116-124 | the loop decodes it, failing on a bad digit |
| Shadow.ReadLine | OS/src/kernel/src/password_store.c:238-306 | the line format with three colons, or the older one with one |
| Shadow.OlderForm | OS/src/kernel/src/password_store.c:262-306 | a line with one colon gives the user with a salt of zeros and no administrator's rights |
| Shadow.NoFlag | OS/src/kernel/src/password_store.c:262-306 | a line without the last field gives a user without administrator's rights |
| Shadow.PasswordStore.Save | OS/src/kernel/src/password_store.c:132-166 | the text holds every used entry in slot order; all of it fits the buffer |
| Shadow.PasswordStore.Load | OS/src/kernel/src/password_store.c:203-334 | the table becomes the users found in the text, in order, the first an administrator |
| Shadow.ReadsBackIff | OS/src/kernel/src/password_store.c:132-334 | reading back what was printed gives the used entries if and only if every used name is well formed; adding a user does not check that |
| Shadow.FoundNames | OS/src/kernel/src/password_store.c:239-259 | whatever the text, the reader finds well-formed names only |
| Shadow.PrintsAgainIff | OS/src/kernel/src/password_store.c:311-312 | printing what was read back gives the same text if and only if the first used entry was an administrator |
| Shadow.PasswordStore.Restart | OS/src/kernel/src/password_store.c:132-334 | saving and loading restores the table |
| Tcp.PlacesIff | OS/src/kernel/src/tcp.c:232-243 | sequence numbers tell the places of a stream apart if and only if it is shorter than 2^32 bytes |
| Tcp.DissectBuild | OS/src/kernel/src/tcp.c:107-144 | whatever the options, the receiver reads ports, numbers, flags and payload that the sender wrote into the header |
| Tcp.LateSegment | OS/src/kernel/src/tcp.c:232-243 | a segment from 2^32 bytes further on is taken as the next one, and the buffer stays a beginning of the stream if and only if the stream repeats itself there |
| Tcp.Connection.Receive | OS/src/kernel/src/tcp.c:159-277 | the connection moves as the state machine says, an established one leaves its state exactly for the FIN and RST bits of byte 13, and whatever arrives, the data for this connection being cut from the peer's stream, the buffer stays a beginning of that stream; in-order data is taken in full, anything else not at all |
| Tcp.Connection.Data | OS/src/kernel/src/tcp.c:227-268 | the segment advances the stream exactly when it starts where the last one ended; a FIN ends reception |
| Tcp.Connection.Run | OS/src/kernel/src/tcp.c:159-277 | over any order, repetition or loss of packets the buffer is a prefix of the stream, at most 8192 bytes, and only grows |
| Checksum.FoldStep | OS/src/kernel/src/include/checksum.h:51-53 | adding the carry back in lowers the sum and keeps its residue, so folding ends in 16 bits |
| Checksum.SumIsResidue | OS/src/kernel/src/include/checksum.h:32-50 | the sum of the words, an odd last byte included, is modulo 65535 the whole block read as one number |
| Checksum.NetChecksum | OS/src/kernel/src/include/checksum.h:32-56 | the complement of the folded word sum; without 32-bit overflow up to 65535 bytes |
| Checksum.Verify | OS/src/kernel/src/include/checksum.h:66-71 | accepts a block if and only if its words add up to a positive multiple of 65535 |
| Checksum.FilledPasses | OS/src/kernel/src/ipv4.c:44-48 | filling the zeroed, aligned field with the checksum makes the block pass |
| Checksum.DamageIff | OS/src/kernel/src/ipv4.c:104-110 | one damaged word goes unnoticed if and only if 0x0000 and 0xFFFF were exchanged and not all words are zero |
| Checksum.TcpChecksum | OS/src/kernel/src/tcp.c:77-94 | four partial sums folded once are the checksum of pseudo-header and segment together |
| ShortNames.ToShortName | OS/src/kernel/src/fat32.c:1097-1129 | the eleven bytes of the directory entry |
| ShortNames.CaseBits | OS/src/kernel/src/fat32.c:1137-1168 | which part was all lower case |
| ShortNames.FromShortName | OS/src/kernel/src/fat32.c:597-625 | the name that an entry spells |
| ShortNames.Compare | OS/src/kernel/src/fat32.c:579-588 | zero if and only if the names differ in case at most |
| ShortNames.FoundIff | OS/src/kernel/src/fat32.c:1097-1168 | encoding and decoding a name gives one that the comparison accepts if and only if it is an 8.3 name: up to eight characters without dot or space and, if there is a dot, one to three behind the last one that do not end in a space |
| ShortNames.IdenticalIff | OS/src/kernel/src/fat32.c:1137-1168 | it gives the identical name if and only if, besides, neither part mixes cases |

## Left out

- Hardware, firmware, boot code, interrupt entry, register save and restore, TLB flushing, locks: a system call runs as one step.
- Device errors: input and output on existing blocks succeeds, except that `BufferCache.Cache.Get` models a failed block read. A table read error would look like a free entry (fat32.c:109-113).
- Exhausted memory inside the FAT driver (its scratch page) and inside process creation, except where a parameter says so.
- FAT32: mounting and its checks, long names, directory iteration, lookup, making and removing directories. There is one vnode per file; lookup can make a second one for the same file and maps first cluster 0 to the root (fat32.c:928-930).
- FatMount.Mount.AllocCluster: the hint is at most one past the last cluster, because mounting copies the hint from the volume unchecked (fat32.c:442-443); `FatChains.ScanCompleteIff` is the exact condition.
- FatFiles.FileSystem.WriteAt: the end of the request fits the driver's 32-bit count of clusters (at least 128 GiB); `FatContent.ReachIff` is when the count is right, and what a write beyond it does is not modelled; the count is returned as it is, where the source casts it to int.
- FatFiles.FileSystem.Create: the name is not in the directory yet; the answer for one that is comes from lookup, which is not modelled.
- FatFiles.FileSystem.Remove: takes the first cluster that the directory scan found as an argument; regular files only. The vnode goes with the file; one that is still open goes on naming the freed cluster (`FatInvariant.StaleWriteIff`, `FatRuns.StaleVnode`), and what writes through it do to the entry in its slot is not modelled.
- FatRuns.Run: ends at a write of which bytes at or behind 4 GiB were accepted, since the size field is then wrong (`FatInvariant.WriteIsFlatIff`).
- BufferCache.Cache.Invalidate: the count of cached blocks is an integer that can become negative; the source's is unsigned.
- BufferCache.Cache.GetNew: the block exists on the device.
- Mmu.PageMap.MapPage: the page does not lie inside a large page; the source does not look (paging.c:90-113), and nothing in it makes large pages.
- Mmu.PageMap.UnmapPage: the same.
- Paging setup for the kernel, setting and clearing single flags, marking ranges copy-on-write.
- CowTables.CowMap.ClonePt: the two tables are read at the start and stored at the end of the loop instead of entry by entry.
- CowTables.CowMap.Clone: requires that no user frame is writable through two pages, which every sound state gives (`CowView.MayClone`).
- CowTables.CowMap.Fault: the branch that frees the old frame is gone; the count was at least two, so it cannot drop to zero.
- CowView.Boot: every usable frame has a count. With nine or more that have none, stores leak (`CowView.UncountedBoot`); between one and eight such frames neither is proved.
- CowView.AddressSpaces.Touch: the current space is one of those that exist, so the source's check of CR3 never fires.
- Processes.ProcessTable.WaitPid: one pass from the label `retry`; a process that slept calls it again when it is dispatched, as the source's jump does. Scan and block are one step, since system calls run with interrupts masked.
- A process has one thread: the only call of create_thread is in create_process. Sessions, groups, signals other than termination, and program loading are not modelled.
- A zombie without a parent, and one whose parent is a dead init, is never reaped; the model says so and does not repair it.
- Pipes.Pipe.Run: write calls do not overlap: while one sleeps no other begins (`Pipes.StoreIff`, `Pipes.SecondSleeperLosesByte`).
- Descriptors.FileTable.Clone: the child's table is empty before, as in a new process.
- The vnode operations behind a file, and what closing a pipe end does to its counts, apart from the fact that it happens once.
- Shadow.PasswordStore.Load: finding and reading the file; hashing and salts are opaque bytes.
- Adding, deleting and verifying users.
- Tcp.Connection.Receive: the peer's stream is shorter than 2^32 bytes (`Tcp.PlacesIff`), and payloads for this connection are cut from it; segments sent in reply, retransmission and the connection set-up loop are not modelled.
- TCP and IPv4 input do not verify or dissect beyond what is listed; sockets, ARP, DHCP, DNS and HTTP are not modelled.
- VFS and RAM file system, TTY, shell, demos: easier than the chosen cores or without a property of their own.
