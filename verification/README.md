# Verified models of the RISC-V VM, its kernel and its relay

A Dafny project that models the parts of the repository where state, concurrency or arithmetic make mistakes
easy, and proves what they promise for all inputs, runs and interleavings. `dafny verify dfyconfig.toml`
checks all of it.

| modules | what they model |
|---|---|
| `PageTable`, `Tlb`, `Mmu`, `MmuRuns`, `Translate`, `Privileged` | The MMU: page tables as memory words, the direct-mapped TLB, one translation as a step of both, fences after table rewrites, and the privileged architecture's own algorithm beside it |
| `SfsFormat`, `SfsVolume`, `SfsIsolation`, `SfsWrite`, `SfsRoom`, `BlockCache`, `FileSystem`, `SfsTheorems`, `SfsExamples` | The kernel's file system SFS: on-disk format, what reading a file means on a disk image, the write-back LRU block cache, and `write_file`, `read_file`, `sync` on top of it |
| `Mkfs`, `MkfsImage`, `MkfsBuild` | The image builder, a separate program that must agree with the kernel on the format |
| `UartRing`, `UartCalls` | The lock-free byte ring between a producer and a consumer thread, one step per atomic load, atomic store or byte access, and the calls of each thread while the other one runs |
| `TcpProxy`, `TcpConnection`, `TcpFrame` | The relay's TCP side: retransmission trimming in sequence space, the forwarding task, frames and Internet checksums (RFC 1071) |
| `VirtQueue`, `VirtioTx` | The network driver's transmit queue: free list, wrapping rings, buffer slots, and the device's steps |
| `Primes`, `Benchmark` | The parallel prime count over harts |
| `Scheduler` | Per-hart run queues with priorities and work stealing |
| `PeerRegistry` | The relay's peer tables and address pool |
| `Basics`, `Arith` | Types, constants and facts about integer division used by several of them |

How the models are built: code that mutates objects, tables or buffers is a class or a method with loops,
proved equal to a function on values or to have a property stated outright; the laws are then proved about
those functions and over whole runs. Threads and hardware are state machines whose runs are arbitrary
sequences of steps. Devices may fail at any call unless a contract asks for `reliable`.

The main results, one per area: `Mmu.StepRefinesReference` and `MmuRuns.RunsAgree` (the TLB is invisible),
`Privileged.TranslateWords` (on raw words it is the standard's, exactly when), `SfsTheorems.SaveAndSync`
(round trip, isolation and failure), `BlockCache.Execute` (the cache is invisible), `MkfsBuild.Build` (the
builder's images are the kernel's), `UartRing.StreamIsPreserved`, `TcpProxy.StreamIsForwarded`,
`TcpFrame.ChecksumsVerify`, `VirtioTx.Net.Run`, `Benchmark.BenchmarkState.Run`, `Scheduler.Scheduler.Run`
and `PeerRegistry.PeerManager.Run`.

Where the code does not meet a property on all inputs, the exact condition is proved, with an input that
fails: `flush_va` works if and only if the address is in the lower half
(`MmuRuns.FlushVaWorksIffLowerHalf`); a store marks its leaf dirty if and only if it misses the TLB or the
leaf was dirty (`Mmu.StoreMarksDirtyIff`, `Mmu.StoreAfterLoadStaysClean`); the walk is the standard's if and
only if it meets no reserved encoding or the tables refuse the request anyway
(`Privileged.ReferenceIsStandardIff`, `Privileged.ReservedBitIsIgnored`); a segment is handled right if and
only if it is tracked and finds room in the queue (`TcpProxy.DataIsRightIffTracked`,
`TcpProxy.GapIsForwarded`, `TcpProxy.DataIsRightIffRoom`, `TcpProxy.FullQueueLoses`); a FIN is acknowledged
if and only if it carries no data (`TcpProxy.FinIsAckedIffBare`, `TcpProxy.FinDataIsLost`), and an ACK has
the next sequence number if and only if the server has sent nothing, modulo 2^32
(`TcpProxy.AckIsCurrentIff`, `TcpProxy.AckAfterDataIsStale`); a saved file reads back if and only if its
name fits 24 bytes without NUL and the search missed no earlier entry of it
(`SfsIsolation.SavedReadsBackIffStorable`, `SfsTheorems.ReadsBackIffFirst`, `SfsExamples`); after a sync
that failed behind its entry it reads back if and only if its blocks lay before the failure or held the rest
already (`SfsTheorems.TornReadsBackIff`, `SfsExamples.FailedSyncTearsFile`); imported files are readable if
and only if there are at most 1024 (`MkfsBuild.ReadableIffListed`, `MkfsBuild.BeyondDirectoryIsLost`); TCP
checksums verify if and only if the 32-bit sum wrapped a multiple of 65535 times
(`TcpFrame.ChecksumsVerify`, `TcpFrame.LongPayloadFails`); the benchmark's total is exact if and only if the
shares not yet stored have no primes (`Benchmark.TotalIsExactIff`), so a hart that reports twice can spoil
it (`Benchmark.ReportedTwice`), and the shell's range must not run backwards (`Benchmark.CommandIsExactIff`,
for a limit of 0 or 1 and two harts). Arithmetic wraps where the release build lets it (Cargo.toml, line
11); the primality loop is right in spite of it. A comment in the builder speaks of 128 MB covered by its
bitmap; the kernel caches only its first sector, 4096 blocks, and the models follow the code.

## Model

| member | source | states |
|---|---|---|
| `PageTable.DecodeSetBit` | riscv-vm/src/mmu.rs:408-427 | Setting bit 6 or 7 of a PTE word sets A or D of its decoded record and changes nothing else |
| `PageTable.WalkIgnoresAD` | riscv-vm/src/mmu.rs:325-441 | Setting A and D bits in any set of words leaves every walk unchanged but for those bits, from any table address, also when a page serves at several levels |
| `PageTable.LookupIgnoresAD` | riscv-vm/src/mmu.rs:325-441 | The mapping found (page, rights, fault) does not depend on any A or D bit |
| `Tlb.FlushedPageIsExact` | riscv-vm/src/mmu.rs:167-180 | After a page flush no entry hits that page and ASID, and hits of other pages, and of other ASIDs on non-global entries, are unchanged |
| `Tlb.TlbCache.Lookup` | riscv-vm/src/mmu.rs:185-196 | Returns the entry of the direct-mapped slot exactly when it is valid, has the page number and is global or of the ASID |
| `Tlb.TlbCache.Insert` | riscv-vm/src/mmu.rs:228-234 | Replaces exactly the slot of the entry's page; a TLB whose entries are all in their slots stays so |
| `Tlb.TlbCache.Flush` | riscv-vm/src/mmu.rs:134-138 | Invalidates every entry |
| `Tlb.TlbCache.FlushAsid` | riscv-vm/src/mmu.rs:143-150 | Invalidates exactly the non-global entries of the ASID |
| `Tlb.TlbCache.FlushVa` | riscv-vm/src/mmu.rs:154-163 | Invalidates the slot of the unmasked page number when it holds that number |
| `Tlb.TlbCache.FlushPage` | riscv-vm/src/mmu.rs:167-180 | Invalidates the slot of the page when it holds it, for the ASID or as global |
| `Mmu.StepOnlyMarks` | riscv-vm/src/mmu.rs:408-427 | A translation changes memory only by setting A and D bits |
| `Mmu.FilledEntryAgrees` | riscv-vm/src/mmu.rs:325-441 | The entry a walk inserts agrees with the tables as the walk left them, under its root, or under every root if global |
| `Mmu.StepRefinesReference` | riscv-vm/src/mmu.rs:259-444 | TLB refinement: with any coherent TLB, for every address, mode, status and access, a translation gives what the TLB-free walk gives, and stays coherent |
| `Mmu.StepKeepsMarks` | riscv-vm/src/mmu.rs:408-437 | Every cached page has A set in the tables, and a cached D implies D in the tables; kept by every translation |
| `Mmu.StoreMarksDirtyIff` | riscv-vm/src/mmu.rs:312-427 | A store that succeeds leaves D set in the leaf that a walk of the tables finds if and only if it missed the TLB or D was set before; a miss sets A too, a hit changes neither tables nor TLB |
| `Mmu.StoreAfterLoadStaysClean` | riscv-vm/src/mmu.rs:312-427 | A load followed by a store to the same page: both succeed and the leaf keeps D clear |
| `MmuRuns.FlushAsidRestores` | riscv-vm/src/mmu.rs:143-150 | After any rewrite of one ASID's non-global mappings, flush_asid makes the TLB coherent with the new tables and keeps all other entries |
| `MmuRuns.FlushPageRestores` | riscv-vm/src/mmu.rs:167-180 | After a rewrite of one page, flush_page makes the TLB coherent again |
| `MmuRuns.FlushAllRestores` | riscv-vm/src/mmu.rs:134-138 | After any rewrite, change of roots or of scheme, flush leaves a coherent TLB |
| `MmuRuns.FlushVaWorksIffLowerHalf` | riscv-vm/src/mmu.rs:154-163 | flush_va removes the page from every possible TLB content if and only if the canonical address lies in the lower half |
| `MmuRuns.FenceRestores` | riscv-vm/src/mmu.rs:134-180 | Each kind of rewrite followed by its fence leaves the TLB coherent |
| `MmuRuns.RunsAgree` | riscv-vm/src/mmu.rs:259-444 | Over every run of translations and fenced rewrites the cached machine answers each translation as a plain walk of the tables last written would |
| `Translate.AddressIndices` | riscv-vm/src/mmu.rs:325-329 | The shifts and masks of the loop give the indices of the page number at each level |
| `Translate.MarkLeaf` | riscv-vm/src/mmu.rs:408-427 | The write-back of a leaf sets A, and D on a store, of that leaf and of no other word |
| `Translate.FinishLeaf` | riscv-vm/src/mmu.rs:362-441 | Permission and alignment checks, A/D update, TLB fill and address of a leaf together are the model's miss step |
| `Translate.FindLeaf` | riscv-vm/src/mmu.rs:331-360 | The loop over the levels, down to a leaf, a fault or a failed load, equals the recursive walk |
| `Translate.WalkTables` | riscv-vm/src/mmu.rs:325-444 | Loop, faults and leaf together are the model's miss step: result, memory and TLB |
| `Translate.Translate` | riscv-vm/src/mmu.rs:259-444 | The whole imperative translation on bus and TLB objects equals one step of the model: result, memory and TLB. What that is on the raw words is Privileged.TranslateWords |
| `Privileged.TranslateWords` | riscv-vm/src/mmu.rs:259-485 | Translation from the words in memory, satp and mstatus, with any coherent TLB: the result is that of the algorithm of section 4.3.2 of the RISC-V privileged architecture (20211203) written on the bits, without its faults on reserved encodings. A paged access succeeds if and only if the address is in one of the two halves, the levels end in a leaf, the leaf is aligned, and its bits grant it: bit 2 for a store, bit 3 for a fetch, bit 1 for a load or bit 3 under mstatus bit 19, bit 4 for user mode, and bit 4 in supervisor mode only for data under mstatus bit 18 |
| `Privileged.PermitsIsAllowed` | riscv-vm/src/mmu.rs:447-485 | The rights check says what the bits of the leaf word and of mstatus say |
| `Privileged.CanonicalIsInHalves` | riscv-vm/src/mmu.rs:301-310 | The test of the bits above the address accepts exactly the lowest and the highest 2^38 or 2^47 addresses |
| `Privileged.DecodesSatp` | riscv-vm/src/mmu.rs:273-331 | satp holds the mode in its highest four bits, the ASID in the sixteen below and the root page in the lowest 44 |
| `Privileged.EndDecides` | riscv-vm/src/mmu.rs:331-441 | The outcome is decided by the leaf, fault or failed load that the levels end in |
| `Privileged.ReservedFaults` | riscv-vm/src/mmu.rs:331-441 | With its faults on reserved encodings the algorithm gives a page fault exactly on a path that meets one, and else the same result |
| `Privileged.LeafAddress` | riscv-vm/src/mmu.rs:429-440 | A leaf at level i gives leaf page number times 4096 plus the address modulo 2^(12+9i) |
| `Privileged.WalkIsAlgorithm` | riscv-vm/src/mmu.rs:325-485 | Level by level, on any words, the walk does what the standard says of the bits, but for reserved encodings |
| `Privileged.ReferenceIsStandard` | riscv-vm/src/mmu.rs:259-485 | So translation without a TLB, for every mode, register, address and access |
| `Privileged.ReferenceIsStandardIff` | riscv-vm/src/mmu.rs:259-485 | Translation gives the result of the whole standard for Sv39 and Sv48 if and only if the path meets no reserved encoding, or the address is not in the two halves, its page not mapped or not with the bits needed |
| `Privileged.ReservedBitIsIgnored` | riscv-vm/src/mmu.rs:325-441 | A leaf with a reserved bit set is taken as a mapping where the standard asks for a page fault |
| `SfsFormat.Le32RoundTrip` | kernel/src/fs.rs:530-543 | A stored little-endian word reads back |
| `SfsFormat.Le32IsLittleEndian` | kernel/src/fs.rs:530-543 | The four bytes written or read are the number, least significant byte first |
| `SfsFormat.WithMarkIsExact` | kernel/src/fs.rs:601-608 | Marking a block marks that block and no other |
| `SfsFormat.MarkIsDigit` | kernel/src/fs.rs:601-608 | The bitmap is one number written least significant byte first, and the mark of block s is its digit of weight 2^s |
| `SfsFormat.FullByte` | kernel/src/fs.rs:598-600 | A bitmap byte is 0xFF exactly when its eight blocks are marked, so skipping it misses no free block |
| `SfsVolume.EntryRoundTrip` | kernel/src/fs.rs:509-528 | A directory entry gives back size and head, its name exactly when the name is 1 to 24 bytes without NUL |
| `SfsVolume.EntryStores` | kernel/src/fs.rs:509-516 | Of any name the entry shows the first 24 bytes up to a NUL, or nothing if that splits a character; it is live unless the name is empty or starts with NUL |
| `SfsVolume.EntryLayout` | kernel/src/fs.rs:30-36 | An entry holds its name from byte 0 up to a NUL, its size in bytes 24 to 27 and its first block in 28 to 31, least significant first |
| `SfsVolume.DirectoryIsTable` | kernel/src/fs.rs:559-578 | The entries are one table from sector 65 on: byte i of entry k is byte 32k+i of it |
| `SfsVolume.FindFreeIsFirst` | kernel/src/fs.rs:580-592 | All entries before the free slot found are live |
| `SfsVolume.WithEntryIsExact` | kernel/src/fs.rs:515-526 | Overwriting one of the sixteen entries of a sector changes no other |
| `SfsVolume.ChunkCountIsCeiling` | kernel/src/fs.rs:483-507 | A file takes its length divided by 508, rounded up, sectors |
| `SfsVolume.ReadLaid` | kernel/src/fs.rs:438-455 | Following a chain that holds the data returns exactly the data, for every length |
| `SfsVolume.ByteIsAt` | kernel/src/fs.rs:483-507 | Byte i of a file is byte 4 + i mod 508 of block i / 508 of its chain, and the first four bytes of a block are the number of the next, or zero in the last |
| `SfsVolume.ReadsBackIffRestDoes` | kernel/src/fs.rs:438-455 | A file of which only the first sectors are known to be written reads back if and only if all were, or the first that was not leads to the rest of the data already |
| `SfsWrite.ChainGrows` | kernel/src/fs.rs:483-507 | Linking the last block to a new one and writing the chunk there extends the chain by that chunk |
| `SfsWrite.AllocationGrows` | kernel/src/fs.rs:594-614 | Taking the first free block keeps the chain increasing, in formerly free data sectors, and marked |
| `SfsWrite.FindClearBit` | kernel/src/fs.rs:597-609 | The inner allocation loop finds the lowest clear bit of a byte, or that there is none |
| `SfsWrite.SizeFits` | kernel/src/fs.rs:517-518 | The bitmap covers too few blocks for a file whose size does not fit its 32-bit field, so the size is never truncated |
| `SfsWrite.WriteAllIsSound` | kernel/src/fs.rs:483-507 | The write loop, chunk by chunk from the first free blocks, ends with a chain holding all the data |
| `SfsWrite.WrittenIsSaved` | kernel/src/fs.rs:457-531 | Chain plus directory entry make a saved file: one entry changed, every protected sector untouched |
| `SfsWrite.ConfinedIsAbandoned` | kernel/src/fs.rs:483-507 | A write that stops midway changed only blocks that were free |
| `SfsIsolation.SavedReadsBack` | kernel/src/fs.rs:457-531 | Round trip on the volume: the saved name reads back as the data |
| `SfsIsolation.SavedReadsBackIffStorable` | kernel/src/fs.rs:509-516 | Of the non-empty names exactly those of at most 24 bytes without NUL read back what was saved under them |
| `SfsIsolation.SavedKeepsOthers` | kernel/src/fs.rs:457-531 | Isolation on the volume, for every name saved under, also one that is cut, and every slot a search may choose: a name that is neither the one given nor the one the entry shows reads as before |
| `SfsIsolation.SavedReads` | kernel/src/fs.rs:457-531 | What every name reads as after a save under any name in any chosen slot: the data exactly when the new entry comes first for it, else what it read as before; only the empty name can lose an entry |
| `SfsIsolation.ReplacedReads` | kernel/src/fs.rs:457-531 | The same wherever the new entry points: the name it comes first for reads as whatever its chain holds, all others as before |
| `SfsIsolation.SavedIsSafe` | kernel/src/fs.rs:457-531 | Saving keeps the invariant that every live chain lies in marked data blocks or beyond the cached bitmap |
| `SfsIsolation.AbandonedKeepsAll` | kernel/src/fs.rs:457-531 | After a failed write every file, the target included, reads as before and the invariant holds |
| `SfsRoom.WrittenIffRoom` | kernel/src/fs.rs:483-507 | The data can be written if and only if it has no more chunks than there are free blocks, and takes that many |
| `SfsRoom.DiskStats` | kernel/src/fs.rs:315-327 | Used plus free blocks are the 4096 covered by the cached bitmap sector |
| `BlockCache.LeastRecentIsUnique` | kernel/src/fs.rs:209-229 | The block to evict is determined: no two blocks have the same access stamp |
| `BlockCache.Cache.LruSector` | kernel/src/fs.rs:210-217 | Finds a block with the least access stamp |
| `BlockCache.Cache.EvictLru` | kernel/src/fs.rs:209-229 | Drops the least recently used block after writing it back if dirty; on a failed write-back drops nothing; the view is unchanged, and each sector of the device holds what it held or the view |
| `BlockCache.Cache.Read` | kernel/src/fs.rs:97-119 | Returns the view's contents, changes no contents, keeps at most 64 blocks, and makes the block the most recently used one |
| `BlockCache.Cache.ReadMut` | kernel/src/fs.rs:122-145 | Leaves the sector cached with the view's contents, as the most recently used block |
| `BlockCache.Cache.MarkDirty` | kernel/src/fs.rs:174-178 | Marking the block dirty makes a modified block part of the view again |
| `BlockCache.Cache.Modify` | kernel/src/fs.rs:122-178 | Storing through the reference and marking dirty updates exactly that sector of the view |
| `BlockCache.Cache.Write` | kernel/src/fs.rs:148-171 | Updates exactly that sector of the view, or fails in an eviction and changes nothing; each sector of the device holds what it held or what the view showed |
| `BlockCache.Cache.SyncBlock` | kernel/src/fs.rs:196-206 | Writes one dirty block back and cleans it; the view and all other sectors are unchanged |
| `BlockCache.Cache.Sync` | kernel/src/fs.rs:181-192 | On success the device holds the view; where it fails, the sectors below hold the view and the others are untouched |
| `BlockCache.Perform` | kernel/src/fs.rs:97-229 | Each operation does what it would do without a cache, or fails and does nothing |
| `BlockCache.Execute` | kernel/src/fs.rs:97-229 | Transparency over every sequence of operations with any device errors: view, reads and synced device are those of a cacheless disk |
| `FileSystem.FileSystem.AllocBlock` | kernel/src/fs.rs:594-614 | Returns and marks the first free block of the cached bitmap, None when there is none |
| `FileSystem.FileSystem.FindEntryPos` | kernel/src/fs.rs:559-578 | Finds the first live entry of the name, as a search of the disk without the sector whose read failed, which the device's log of failed reads confirms; a slot found is the right one on any device |
| `FileSystem.FileSystem.FindFreeDirEntry` | kernel/src/fs.rs:580-592 | A slot found is the first free one on any device; on a device that does not fail it is found if there is one |
| `FileSystem.FileSystem.ReadFromDevice` | kernel/src/fs.rs:438-455 | What it returns is the file, on any device; on one that does not fail it returns it if it is there |
| `FileSystem.FileSystem.FollowChain` | kernel/src/fs.rs:443-454 | Bytes returned are the chain's, on any device |
| `FileSystem.FileSystem.LinkBlockCached` | kernel/src/fs.rs:534-544 | Changes exactly the link of the previous block, or fails and changes nothing |
| `FileSystem.FileSystem.WriteDirEntry` | kernel/src/fs.rs:509-528 | Changes exactly one directory entry of the view, or fails and changes nothing |
| `FileSystem.FileSystem.AppendBlock` | kernel/src/fs.rs:484-505 | One turn of the write loop: allocate, link, write; disk full exactly when no block is free |
| `FileSystem.FileSystem.WriteChunks` | kernel/src/fs.rs:478-507 | The write loop equals writing all chunks, and on any failure changed only formerly free blocks, in the view and, through evictions, on the device |
| `FileSystem.FileSystem.WriteFile` | kernel/src/fs.rs:457-531 | On success the whole file is drafted and its entry written in the slot that the search found up to a sector it failed to read, or in the first free one; each error is characterised; on the device only formerly free blocks differ from what they held or the view showed |
| `FileSystem.FindStops` | kernel/src/fs.rs:559-578 | A search that cannot read a directory sector ends as if the sector did not exist |
| `FileSystem.FileSystem.Sync` | kernel/src/fs.rs:290-299 | On success the device is the whole content; where it fails, the sectors below are and the others are untouched; the content never changes |
| `FileSystem.Mount` | kernel/src/fs.rs:266-287 | Mounts a device that has the magic number, with its first bitmap sector and the device as content |
| `SfsTheorems.WroteFileIsSaved` | kernel/src/fs.rs:457-531 | The steps of a successful write add up to a saved file on the volume |
| `SfsTheorems.SaveAndSync` | kernel/src/fs.rs:290-531 | Write then sync from a synced state, on any device, under any name, through any evictions. Whatever fails, every name but the target reads on the device as before and the content to be written is a safe volume. Once a sync succeeds, every name reads as the save in the chosen slot says, and on a device that does not fail a storable name reads back the data. A failed write changes no file. A failed sync leaves the target as before, or as its entry and the blocks below the failure say |
| `SfsTheorems.TornReadsBackIff` | kernel/src/fs.rs:181-192 | After a sync that failed past the entry's sector, the target reads back if and only if all its blocks lay below the failure, or the first that did not leads to the rest of the data already |
| `SfsExamples.FailedSyncTearsFile` | kernel/src/fs.rs:181-192 | An empty file overwritten, the sync failing at its data block: the entry is on the device and the file reads as the zeros of a block that was never written |
| `SfsTheorems.ReadsBackIffFirst` | kernel/src/fs.rs:463-466 | A save under a storable name reads back if and only if no earlier entry of the name was missed by the search |
| `SfsExamples.ReadErrorHidesWrite` | kernel/src/fs.rs:463-466 | An old entry whose sector cannot be read during the search: the write succeeds in the free slot behind it and the old contents read back |
| `SfsExamples.CutNameShadows` | kernel/src/fs.rs:509-516 | Any name that must be cut to be stored cannot be read back, and takes the place of the file named by what remains of it when a slot before that one is free |
| `SfsExamples.LongNameShadows` | kernel/src/fs.rs:509-516 | So it is with 25 letters and the file named by the first 24 |
| `SfsTheorems.WriteIfRoom` | kernel/src/fs.rs:457-531 | On a sound device a write succeeds if and only if there is a slot and a free block per chunk; root-dir-full if and only if there is no slot |
| `Mkfs.LayIsAllocated` | mkfs/src/main.rs:275-306 | The builder's chain is the first free sectors in order, and nothing else changes |
| `Mkfs.LayIsLaid` | mkfs/src/main.rs:275-306 | The builder's forward-linked chain holds the data in the kernel's format |
| `Mkfs.LaidOutIsSound` | mkfs/src/main.rs:275-306 | Writing a file's data allocates free sectors only, touches only them, and lays all the data |
| `MkfsImage.AddFile` | mkfs/src/main.rs:252-255 | Data and entry of one more file leave all earlier files in place and add the new one |
| `MkfsImage.BitmapIsStored` | mkfs/src/main.rs:147-149 | Each of the 262144 marks is stored at its place in sectors 1 to 64 |
| `MkfsImage.ImageIsSafe` | mkfs/src/main.rs:147-149 | The image satisfies the chain and bitmap invariant of the kernel's file isolation |
| `MkfsImage.ImageReadsBack` | mkfs/src/main.rs:213-326 | Every file that is the first of its name reads back with its bytes |
| `MkfsBuild.ReservedBitmap` | mkfs/src/main.rs:57-65 | The reservation loop marks exactly sectors 0 to 128 |
| `MkfsBuild.LaidOutIffRoom` | mkfs/src/main.rs:275-306 | A file is laid if and only if its chunks fit behind the blocks in use |
| `MkfsBuild.SlotInDirectoryIff` | mkfs/src/main.rs:308-316 | An index lands in a directory sector if and only if it is below 1024 |
| `MkfsBuild.KeptInOrder` | mkfs/src/main.rs:190-255 | Of the host files exactly those with names of up to 23 bytes are kept, in order |
| `MkfsBuild.BeyondDirectoryIsLost` | mkfs/src/main.rs:308-326 | The file with index 1024 is not found by the kernel: its entry was written into the first data sector |
| `MkfsBuild.ReadableIffListed` | mkfs/src/main.rs:213-326 | Files of distinct names are all readable if and only if there are at most 1024 of them |
| `MkfsBuild.ImageBoots` | mkfs/src/main.rs:50-149 | The finished image has the magic number, marked system sectors and the safety invariant |
| `MkfsBuild.Builder.FindFreeSector` | mkfs/src/main.rs:261-273 | Returns and marks the first free sector of the 64-sector bitmap |
| `MkfsBuild.Builder.WriteData` | mkfs/src/main.rs:275-306 | The loop that allocates the next sector before writing the current one equals the recursive layout |
| `MkfsBuild.Builder.WriteDirEntry` | mkfs/src/main.rs:308-326 | The three writes put exactly one entry at the index, which reads back; no other entry and no other sector changes; there is no bound on the index |
| `MkfsBuild.Builder.WriteBitmap` | mkfs/src/main.rs:147-149 | After the loop every one of the 262144 marks is at its place in sectors 1 to 64, and no other sector has changed |
| `MkfsBuild.Builder.ImportOne` | mkfs/src/main.rs:252-255 | One file: succeeds if and only if it fits, and keeps the image's invariant |
| `MkfsBuild.Builder.Import` | mkfs/src/main.rs:213-259 | All files in order, over-long names skipped: succeeds if and only if the kept files fit |
| `MkfsBuild.Build` | mkfs/src/main.rs:39-153 | The whole build: it stops only when out of blocks, the image boots, and all kept files of distinct names are readable if and only if they fit the directory |
| `MkfsBuild.MountImage` | kernel/src/fs.rs:266-287 | A built image mounts into a synced file system on a safe volume, where the kernel's theorems start |
| `UartRing.RoomIsExact` | riscv-vm/src/shared_mem.rs:522-542 | The number of bytes the producer stores, computed from the two indices, is the smaller of what is free and its length in 32 bits |
| `UartRing.SupplyIsExact` | riscv-vm/src/shared_mem.rs:566-588 | The consumer finds the ring empty exactly if all that was published when it looked is consumed, and else fetches the smaller of its limit and what was published |
| `UartRing.StoreKeepsOthers` | riscv-vm/src/shared_mem.rs:545-551 | The slot of a byte store holds no byte still to be consumed |
| `UartRing.ProducerKeepsInv` | riscv-vm/src/shared_mem.rs:456-561 | Every producer step keeps the ring invariant |
| `UartRing.ConsumerKeepsInv` | riscv-vm/src/shared_mem.rs:483-603 | Every consumer step keeps the ring invariant |
| `UartRing.StreamIsPreserved` | riscv-vm/src/shared_mem.rs:456-603 | In every interleaving of all loads, stores and byte accesses, single and batched calls mixed: consumed followed by published equals accepted, and at most capacity minus one bytes are held |
| `UartRing.BytesAreStable` | riscv-vm/src/shared_mem.rs:456-603 | No published byte is overwritten before it is consumed, and each fetched byte is the next published one |
| `UartCalls.SharedUart.WriteByte` | riscv-vm/src/shared_mem.rs:456-479 | With the consumer running between its accesses: appends the byte whenever there was room at the start; refuses only a full ring |
| `UartCalls.SharedUart.WriteBytes` | riscv-vm/src/shared_mem.rs:522-561 | With the consumer running between its accesses: appends a prefix of the bytes, at least as long as the room at the start, the length cut to 32 bits |
| `UartCalls.SharedUart.ReadByte` | riscv-vm/src/shared_mem.rs:483-505 | With the producer running between its accesses: the oldest byte, always if there was one at the start |
| `UartCalls.SharedUart.ReadBytes` | riscv-vm/src/shared_mem.rs:566-603 | With the producer running between its accesses: the oldest bytes, at least as many of those asked for as were there at the start |
| `UartCalls.SharedUart.StoreAndPublish` | riscv-vm/src/shared_mem.rs:545-556 | The copying loop and index store of a write are producer steps of the model, whatever the consumer does in between |
| `UartCalls.SharedUart.FetchAndRelease` | riscv-vm/src/shared_mem.rs:590-600 | The copying loop and index store of a read are consumer steps of the model, whatever the producer does in between |
| `TcpProxy.Judgement` | relay/src/proxy.rs:396-448 | How the session sees a segment in 32-bit sequence space, in terms of its true distance in the stream |
| `TcpProxy.DataIsRightIffTracked` | relay/src/proxy.rs:394-494 | A data segment has exactly the right effect if and only if it starts at the end of what was taken, or behind it within the window the code can see |
| `TcpProxy.GapIsForwarded` | relay/src/proxy.rs:438-490 | A segment one byte past the end is forwarded and acknowledged: the bytes taken are no prefix of the stream |
| `TcpProxy.DataIsRightIffRoom` | relay/src/proxy.rs:462-469 | A segment with new bytes is handled right if and only if the queue to the task has room |
| `TcpProxy.FullQueueLoses` | relay/src/proxy.rs:462-490 | After 64 segments in a row, from the SYN on, the next byte of the stream is acknowledged and lost |
| `TcpProxy.ArriveKeepsExact` | relay/src/proxy.rs:394-494 | Handling a segment keeps the bytes taken a prefix of the VM's stream and the acknowledgement at its end |
| `TcpProxy.ArriveAnswers` | relay/src/proxy.rs:256-500 | The reply to every segment: to data an ACK for exactly the bytes of the stream taken by then, which is the session's server_ack; to a repeated SYN the SYN-ACK; to a FIN behind all bytes taken a FIN-ACK for it; to anything else none |
| `TcpProxy.FinIsAckedIffBare` | relay/src/proxy.rs:372-392 | A FIN is acknowledged, with all before it, if and only if it carries no data |
| `TcpProxy.FinDataIsLost` | relay/src/proxy.rs:372-392 | A FIN with one byte: the byte is not taken and the acknowledgement is one short |
| `TcpProxy.AckIsCurrentIff` | relay/src/proxy.rs:474-490 | The sequence number of an ACK is that of the next byte to the VM if and only if the server's bytes sent so far are a multiple of 2^32, such as none |
| `TcpProxy.AckAfterDataIsStale` | relay/src/proxy.rs:474-490 | After one byte from the server an ACK carries its number again |
| `TcpProxy.TaskKeepsExact` | relay/src/proxy.rs:599-695 | Each turn of the forwarding task keeps it too, also a write that fails midway or a failed read |
| `TcpProxy.StreamIsForwarded` | relay/src/proxy.rs:256-695 | In every interleaving from the SYN on, over any sequence wraps and overlaps: the server gets a prefix of the stream, server_ack is its end, and equals the task's ack plus the queued bytes; and every segment that arrived was answered as ArriveAnswers says, each ACK for exactly the bytes taken at that moment |
| `TcpProxy.FragmentsAreTheData` | relay/src/proxy.rs:633-663 | Fragmenting loses, repeats and reorders nothing, numbers fragments consecutively, keeps the size limit, and flags each ACK and the last alone PSH |
| `TcpProxy.ServerStreamIsDelivered` | relay/src/proxy.rs:618-672 | Over every run the packets to the VM carry the server's bytes in order with consecutive sequence numbers |
| `TcpProxy.SentAcknowledgesForwarded` | relay/src/proxy.rs:618-672 | Each packet the task sends acknowledges exactly the bytes it has written to the server |
| `TcpProxy.FinIffServerCloses` | relay/src/proxy.rs:618-672 | Over every run the VM gets a FIN if and only if the server closed: one, bare, and last |
| `TcpProxy.RunsUntilEnded` | relay/src/proxy.rs:599-695 | Only a FIN from the VM, the server's close, a failed read or a broken write ends the task |
| `TcpProxy.FinEndsTask` | relay/src/proxy.rs:372-392 | A FIN that finds room ends the task once it has written every byte taken before |
| `TcpProxy.SessionLives` | relay/src/proxy.rs:355-374 | Over every run the session ends exactly with a reset; until then it is closing exactly if a FIN came, knows the numbers of the last segment, and keeps the server's initial number |
| `TcpConnection.Connection.OnSegment` | relay/src/proxy.rs:256-500 | Dispatch on flags and session state, a SYN that opens a connection included, with its updates and reply, equals the model's step |
| `TcpConnection.Connection.OnSyn` | relay/src/proxy.rs:503-596 | A bare RST-ACK that changes nothing if the server cannot be reached; else a SYN-ACK and a connection that is in step with every stream the VM may send from the next sequence number on, acknowledges just the SYN, takes data, and numbers the server's bytes from the SYN-ACK on |
| `TcpConnection.Connection.OnData` | relay/src/proxy.rs:394-494 | Trimming, queueing and acknowledgement of a data segment equal the model's step, whose effect DataIsRightIffTracked and whose reply ArriveAnswers state |
| `TcpConnection.Connection.OnMessage` | relay/src/proxy.rs:673-689 | The task's write to the server, complete or broken off, equals the model's step |
| `TcpConnection.Connection.OnServerBytes` | relay/src/proxy.rs:618-672 | The fragmenting loop equals the model's step |
| `TcpConnection.Connection.OnServerError` | relay/src/proxy.rs:666-669 | After a failed read the task takes nothing more; the bytes taken from the VM and the packets sent to it stay, and with them exactness towards every stream and the numbering of the packets |
| `TcpFrame.FoldIsResidue` | relay/src/proxy.rs:1000-1004 | Folding keeps the sum modulo 65535 and tells zero from the other multiples |
| `TcpFrame.ComplementCancels` | relay/src/proxy.rs:1004-1006 | Adding the complement of the folded sum folds to all ones |
| `TcpFrame.ComputeChecksum` | relay/src/proxy.rs:992-1007 | The loop sums big-endian words in 32 bits that wrap, then folds and complements; up to 131074 bytes the result is the checksum of the data, a zero byte added if their number is odd, read as one big-endian number |
| `TcpFrame.ChecksumOfNumber` | relay/src/proxy.rs:992-1007 | For all data the checksum of the sum of words is that of the zero-padded data read as one big-endian number |
| `TcpFrame.PaddingKeepsSum` | relay/src/proxy.rs:998-1002 | Data of odd length have the sum of the data with a zero byte added |
| `TcpFrame.ComputeTcpChecksum` | relay/src/proxy.rs:1009-1034 | The same over pseudo-header and segment, of any length, in 32 bits that wrap |
| `TcpFrame.PseudoHeaderIsSummed` | relay/src/proxy.rs:1009-1020 | For every segment whose length 16 bits hold, the sum is that of the twelve bytes of the pseudo-header (addresses, zero, protocol 6, length) followed by the segment, and does not wrap |
| `TcpFrame.ChecksumsVerify` | relay/src/proxy.rs:698-760 | The IP checksum of every built frame recomputes to zero; the TCP checksum does if and only if its 32-bit sum wrapped a multiple of 65535 times, and it never wraps for payloads up to 130000 bytes, odd or even |
| `TcpFrame.LongPayloadFails` | relay/src/proxy.rs:1009-1034 | A payload of 140000 bytes of ones: the sum wraps once and the TCP checksum does not verify |
| `TcpFrame.BigEndianFields` | relay/src/proxy.rs:698-760 | Two- and four-byte fields are numbers, most significant byte first |
| `TcpFrame.HeadersRead` | relay/src/proxy.rs:698-760 | What a receiver reads in every built frame by position: MACs and EtherType 0x0800, IPv4 of 20 header bytes, not to be fragmented, protocol 6, addresses, the datagram's length if and only if 16 bits hold it, ports, numbers, flags, a TCP header of 20 bytes, the window, and the payload |
| `TcpFrame.ParseInvertsFrame` | relay/src/proxy.rs:257-310 | Parsing a built frame gives back every field and the payload that went into it |
| `TcpFrame.BuildTcpPacket` | relay/src/proxy.rs:698-760 | The in-place writes with checksums patched in afterwards produce the frame of the definition |
| `VirtQueue.Ledger.AllocatedIsOk` | kernel/src/virtio_net.rs:169-177 | Allocating takes a free descriptor and keeps each descriptor in exactly one place |
| `VirtQueue.Ledger.FreedIsOk` | kernel/src/virtio_net.rs:180-184 | Freeing a held descriptor keeps each descriptor in exactly one place |
| `VirtQueue.Ledger.PublishedIsOk` | kernel/src/virtio_net.rs:187-193 | Publishing keeps the count of sixteen and finds room in the ring |
| `VirtQueue.Ledger.PoppedIsOk` | kernel/src/virtio_net.rs:203-215 | Popping gives a descriptor no one holds, and keeps the count |
| `VirtQueue.RingGrows` | kernel/src/virtio_net.rs:187-193 | Writing at the 16-bit wrapped index never overwrites an entry still to be read |
| `VirtQueue.RingReads` | kernel/src/virtio_net.rs:203-215 | Across any number of index wraps the reader gets the oldest unread entry, and the indices are equal if and only if there is none |
| `VirtQueue.Queue.constructor` | kernel/src/virtio_net.rs:142-166 | The initial list from descriptor 0 to 15 is a free chain of all sixteen |
| `VirtQueue.Queue.AllocDesc` | kernel/src/virtio_net.rs:169-177 | Pops the head of the free chain, None if and only if none is free |
| `VirtQueue.Queue.FreeDesc` | kernel/src/virtio_net.rs:180-184 | Pushes the descriptor on the free chain |
| `VirtQueue.Queue.SetupDesc` | kernel/src/virtio_net.rs:517-522 | Filling in a held descriptor, its next field included, leaves the free chain intact |
| `VirtQueue.Queue.PushAvail` | kernel/src/virtio_net.rs:187-193 | Appends to the available ring |
| `VirtQueue.Queue.PopUsed` | kernel/src/virtio_net.rs:203-215 | Returns the used entries in order, each once |
| `VirtioTx.OccupiedAfter` | kernel/src/virtio_net.rs:524-546 | Filling or clearing a slot changes the number of occupied slots by one |
| `VirtioTx.BackedGrows` | kernel/src/virtio_net.rs:486-524 | Filling a free slot for a newly allocated descriptor keeps occupied slots and allocated descriptors one to one |
| `VirtioTx.BackedShrinks` | kernel/src/virtio_net.rs:536-548 | Clearing the slot of a freed descriptor keeps them one to one |
| `VirtioTx.FramedHolds` | kernel/src/virtio_net.rs:508-515 | The buffer has 1526 bytes, the first twelve zero, and behind them up to the descriptor's length exactly the packet |
| `VirtioTx.Fetches` | kernel/src/virtio_net.rs:515-526 | The next descriptor for the device has in its slot the next packet sent |
| `VirtioTx.Net.Send` | kernel/src/virtio_net.rs:486-533 | Succeeds if and only if the packet fits and a descriptor is free, and the missing-slot error cannot occur; the slot then holds twelve zero bytes and the packet up to the length in the descriptor, which is published last |
| `VirtioTx.Net.Take` | kernel/src/virtio_net.rs:515-530 | The device takes the next published descriptor, and what it reads from the slot's buffer is the packet of that send |
| `VirtioTx.Net.ClearSlot` | kernel/src/virtio_net.rs:538-546 | Empties the first, and only, slot that names the descriptor |
| `VirtioTx.Net.ReapOne` | kernel/src/virtio_net.rs:537-549 | One round frees exactly the descriptor popped |
| `VirtioTx.Net.ProcessTx` | kernel/src/virtio_net.rs:536-550 | With the device running between its rounds: frees exactly what the device has returned when it stops |
| `VirtioTx.Net.Run` | kernel/src/virtio_net.rs:486-550 | In every interleaving with a device that returns each descriptor once: the packets the device has read are those of the successful sends, in order, each once and byte for byte; free chain, slots and rings stay consistent, free plus in flight is sixteen, no send lacks a slot |
| `Primes.SixMore` | kernel/src/main.rs:215-221 | Trying 6k+5 and 6k+7 covers six candidates when 2 and 3 do not divide |
| `Primes.RootSuffices` | kernel/src/main.rs:214-222 | No divisor up to the square root means prime |
| `Primes.TriesBelow` | kernel/src/main.rs:214-221 | While the guard holds, wrapped or not, the divisors tried are below the number, and the loop ends before a candidate whose wrapped square exceeds every 64-bit prime |
| `Primes.TriedAll` | kernel/src/main.rs:214-222 | When the guard fails, wrapped or not, all divisors up to the root were tried |
| `Primes.IsPrime` | kernel/src/main.rs:197-223 | Trial division equals the definition of primality on every 64-bit number, with the wrapping square of its loop guard |
| `Primes.CountPrimes` | kernel/src/main.rs:227-235 | Counts exactly the primes of the range, a number that fits 64 bits |
| `Benchmark.RangesCover` | kernel/src/main.rs:139-159 | The first share starts at the start and the last ends at the end |
| `Benchmark.RangesMeet` | kernel/src/main.rs:139-159 | Each share of an ordered range is an interval inside it and the next starts where it ends, without wrapping |
| `Benchmark.SharesAreEven` | kernel/src/main.rs:139-159 | Each hart's share of an ordered range is the range divided by the harts, and the last also gets the remainder |
| `Benchmark.SharesAddUp` | kernel/src/main.rs:139-159 | The primes of the shares of an ordered range add up to those of the range |
| `Benchmark.SharesFit` | kernel/src/main.rs:139-178 | The primes in all shares together are at most the 64-bit length of the range, also of one that runs backwards, so no sum of them wraps |
| `Benchmark.TotalIsExactIff` | kernel/src/main.rs:171-178 | At any moment the total of an ordered range is exact if and only if no share still to be stored contains a prime |
| `Benchmark.TotalIsExact` | kernel/src/main.rs:171-184 | When as many harts announced as take part, each once, the total is the sum of the shares, and of an ordered range the number of its primes |
| `Benchmark.CommandIsExactIff` | kernel/src/main.rs:139-159 | Counting from 2, as the shell does, the shares add up to the primes below the limit if and only if the limit is at least 2 or one hart works alone; otherwise the length of the range wraps |
| `Benchmark.BenchmarkState.Start` | kernel/src/main.rs:113-125 | Resets all results and the counter before the mode is set |
| `Benchmark.BenchmarkState.TotalResult` | kernel/src/main.rs:171-178 | The 64-bit sum of the results of the participating harts; while each is the count of its share or not stored yet, their sum without wrapping |
| `Benchmark.BenchmarkState.HartStores` | kernel/src/main.rs:347-361 | A hart counts its own share and stores it |
| `Benchmark.BenchmarkState.HartAnnounces` | kernel/src/main.rs:162-168 | The counter equals the number of harts that have announced |
| `Benchmark.BenchmarkState.Run` | kernel/src/main.rs:113-184 | In every interleaving of stores and announcements, whenever the poll says completed the total is the sum of the shares, and of an ordered range the number of primes; otherwise a hart is missing |
| `Benchmark.ReportedTwice` | kernel/src/main.rs:162-184 | A hart that reports twice completes the count with another's share missing: the total is too small |
| `Scheduler.InsertPosition` | kernel/src/scheduler.rs:36-47 | The insertion loop finds the position behind all tasks of at least the priority |
| `Scheduler.FirstRunnable` | kernel/src/scheduler.rs:50-58 | The search loop finds the first runnable task, or that there is none |
| `Scheduler.InsertKeepsOrder` | kernel/src/scheduler.rs:36-47 | Inserting there keeps the queue sorted by priority and, among equals, by arrival |
| `Scheduler.RemoveKeepsOrder` | kernel/src/scheduler.rs:50-58 | Removing any task keeps that order |
| `Scheduler.FirstIsBest` | kernel/src/scheduler.rs:50-58 | The first runnable task has the highest priority of all runnable ones and is the oldest of those |
| `Scheduler.AtMostOnce` | kernel/src/scheduler.rs:232-264 | A task is handed out at most once more often than it was put back; while a hart has it, it is in no queue |
| `Scheduler.Scheduler.Create` | kernel/src/scheduler.rs:144-151 | A spawn takes a number never used before |
| `Scheduler.Scheduler.Enqueue` | kernel/src/scheduler.rs:156-157 | The task goes into one queue as its latest arrival, and every task stays in exactly one place |
| `Scheduler.Scheduler.Requeue` | kernel/src/scheduler.rs:261-264 | The same for a task put back by a hart that has it |
| `Scheduler.Scheduler.Dequeue` | kernel/src/scheduler.rs:50-58 | Hands out the oldest runnable task of highest priority, None if and only if none is runnable |
| `Scheduler.Scheduler.Steal` | kernel/src/scheduler.rs:71-78 | Hands out the last task of a queue with more than one, else nothing |
| `Scheduler.Scheduler.LeastLoaded` | kernel/src/scheduler.rs:215-229 | Looking at one queue after the other while other harts go on: the first of the shortest lengths seen |
| `Scheduler.Scheduler.Spawn` | kernel/src/scheduler.rs:137-175 | With other harts running between its critical sections: a new task is placed in exactly one queue, as its latest arrival, its own hart's or the first shortest one seen |
| `Scheduler.Scheduler.StealFromOthers` | kernel/src/scheduler.rs:238-255 | With other harts running between its critical sections: steals the last task of another queue that has more than one, the first such if no one interferes |
| `Scheduler.Scheduler.PickNext` | kernel/src/scheduler.rs:232-258 | With other harts running between its critical sections: the hart's own best runnable task, else a stolen one; at that moment no hart has it |
| `Scheduler.Scheduler.Run` | kernel/src/scheduler.rs:36-264 | Over every sequence of critical sections by any harts, task states changing arbitrarily: queues stay in order and no task is handed out twice without being put back |
| `PeerRegistry.PartitionAllocates` | relay/src/peer.rs:66-75 | Taking the last available host keeps available and taken hosts a partition of 10 to 254 |
| `PeerRegistry.PartitionReleases` | relay/src/peer.rs:78-88 | Releasing a taken host keeps it |
| `PeerRegistry.Tables.WithIsInverse` | relay/src/peer.rs:150-153 | Adding a peer keeps id, MAC and IP tables and the pool's allocations inverse to each other |
| `PeerRegistry.Tables.WithoutIsInverse` | relay/src/peer.rs:168-172 | Removing a peer keeps them inverse |
| `PeerRegistry.NoSharedAddress` | relay/src/peer.rs:137-165 | No two live peers share an address or a MAC |
| `PeerRegistry.IpPool.constructor` | relay/src/peer.rs:55-63 | The pool starts with the 245 hosts 10 to 254 available |
| `PeerRegistry.IpPool.Allocate` | relay/src/peer.rs:66-75 | Hands out the last available host, None if and only if none is left |
| `PeerRegistry.IpPool.Release` | relay/src/peer.rs:78-88 | Returns a taken host of the network and ignores every other address |
| `PeerRegistry.PeerManager.Register` | relay/src/peer.rs:137-165 | A known MAC keeps its id and address; a new one gets an unused address from 10.0.2.10 to 10.0.2.254, or none if and only if 245 peers are live, when only an id is used up |
| `PeerRegistry.PeerManager.Unregister` | relay/src/peer.rs:168-181 | Removes the peer from every table and returns its address; an unknown id changes nothing |
| `PeerRegistry.PeerManager.CleanupExpired` | relay/src/peer.rs:211-224 | A peer stays if and only if less than 121 seconds have gone by since it was last seen, as whole seconds are compared with 120; nothing else changes |
| `PeerRegistry.PeerManager.Perform` | relay/src/peer.rs:137-224 | One call: what it makes of each peer that is there, and that no other appears but the one registered |
| `PeerRegistry.Survives` | relay/src/peer.rs:34-40 | A peer seen at t survives every sequence of calls whose cleanups are less than 121 seconds later, unless it is unregistered |
| `PeerRegistry.SilentIsRemoved` | relay/src/peer.rs:34-40 | A peer not seen for 121 seconds is gone after the next cleanup |
| `PeerRegistry.PeerManager.Run` | relay/src/peer.rs:66-224 | After every sequence of calls: tables inverse, pool partitioned, free plus live is 245, no shared address, and every peer there at first is what its calls made of it, to which Survives and SilentIsRemoved apply |

## Left out

- CPU execution, instruction decoding, interrupt controllers and device emulation: not part of this model.
- Memory ordering: the UART ring, the benchmark and the virtqueue are interleavings of atomic steps; the effect of weaker orderings on real hardware is not modelled.
- Translate.MarkLeaf: page tables are in RAM, where a store succeeds wherever a load did; tables placed over device registers, some of which refuse stores, are not modelled.
- MMU: unsupported satp modes are bare, as in the code. `lookup_fast` and `lookup_with_level` return fields of the entry that `lookup` finds, and `insert_translation` builds an entry for `insert`; they have no members of their own.
- MMU runs: one paging mode and one root per address space between full flushes, which is what the TLB tags can tell apart.
- SFS: several writes without a sync between them, `mkdir`, `remove`, `list_dir` and `invalidate`. The access counter that orders blocks for eviction is unbounded.
- MkfsBuild.Build: not for an image of zero megabytes. Its file ends where the last write did, inside the directory or even inside a sector, and what the kernel reads past the end is up to the device.
- mkfs: walking host directories and choosing names; files come as a list.
- UART ring: more than one producer or consumer. The input ring runs the same code as the output ring, and one model stands for both.
- TCP: session expiry, and a response channel that drops packets. UDP, ICMP, TLS and HTTP. The task of a session that was reset goes on until its server closes; after a new SYN the model follows the new connection only.
- VirtioTx.Net.Take: the device reads the buffer in the slot. The addresses placed in descriptors are not modelled; `send` takes the buffer's address before moving it into its slot.
- Virtqueue: the receive side.
- Benchmark: the 60-second timeout of the coordinator.
- Scheduler: hart affinity and runnability of stolen tasks, which `steal` does not check; daemons, `kill` and the task registry. A task is identified by its spawn number, of which the 32-bit pid is the remainder.
- Peer registry: wrap-around of the 64-bit peer id, and log output.
