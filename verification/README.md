# A verified model of the kernel's core

This project models, in Dafny, the parts of the operating system whose correctness is
hard to see by reading: its file system and the host tool that writes the same disk, its
heap, its page tables and program loader, its scheduler on several processors, the NVMe
and xHCI rings, and the Internet checksum with the echo reply built on it. Each part has
three layers:

- a state as a value, and the operations as functions on it;
- the code itself, as classes and methods that update bytes, words and fields in place,
  each proved equal to its function on every input;
- theorems about those functions over every input, every run and every interleaving.

| part | files | main results |
|---|---|---|
| file system | `KagLayout`, `KagVolume`, `KagChains`, `KagRefinement`, `KagSlots`, `KagDisk` | `VolumeIsAFileStore`, `VolumeIsATable`, `ClustersAlwaysAddUp`, `ReadBackIffNulFree`, `Disk.CreateFile` |
| host tool | `HostImage`, `HostTool` | `SameImageIffAlike`, `CreateOnBoth`, `InsertThenRead`, `FormatOnBoth` |
| heap | `LargeList`, `HeapModel`, `HeapSafety`, `HeapMemory`, `HeapImage`, `HeapWords`, `HeapBytes`, `HeapCode` | `HeapIsSafe`, `DataStays`, `FreeUndoesAlloc`, `NextPrevInverse`, `SegregatedAllocator.AllocAligned`, `SegregatedAllocator.DeallocAligned`, `SegregatedAllocator.Realloc` |
| frames, paging, loader | `Frames`, `PageTables`, `PageTree`, `PageRights`, `Paging`, `PageCost`, `AddressSpaces`, `Kef` | `SupplyIsFresh`, `MapRefinesUpdate`, `LeafDecides`, `NewTablesAdd`, `InitPaging`, `LoadKef` |
| scheduler | `Scheduler`, `SchedulerStacks`, `SchedulerCode` | `RunningIffCurrent`, `BoundedWaiting`, `ContextsArePrivate`, `KernelStacksAreRight`, `LoadsLatestIffStoredInTime`, `StoreHitsIffNoGrowth` |
| device rings | `Nvme`, `Xhci`, `XhciEvents` | `WaitsEndRight`, `WaitEndsOncePosted`, `RingDelivers`, `ConsumerGoesOnIffRoom`, `EventsDelivered` |
| network | `Checksum` | `SumFitsIffShort`, `StoredChecksumVerifies`, `EchoReply`, `RepliesVerifyIffSound` |

`Bytes` holds the machine integers and their little-endian encodings. Where a result depends
on constants, field offsets or bit positions, a lemma states them as numbers (`FormattedBytes`,
`HeaderByBytes`, `RequestByBytes`, `ListedMembers`, `LittleEndian` and the like). `dafny verify
dfyconfig.toml` checks everything.

## Where the code is not what its comments say

In each case the model follows the code, shows a failing case, and proves exactly when
the code does what was meant.

- A full FAT is reported as `InvalidArgument`, not `NoSpace`: the search runs past the FAT
  and the range guard of the entry reader stops it (`FullVolumeIsInvalidArgument`; for every
  create, `CreateRefines`). The `u16` cast of the last cluster number is modelled; it never
  is the limit.
- A file can be read back under its name exactly when the name has no NUL byte
  (`NulNameIsLost`, `ReadBackIffNulFree`). With such names, names stop being unique
  (`NulNamesRepeat`); chains, contents and cluster counts stay right (`VolumeIsATable`,
  `ClustersAlwaysAddUp`).
- The host tool has no range guard: with a full FAT and an empty directory slot it takes a
  "cluster" inside the directory and destroys it (`FullFatSpillsIntoDirectory`). It also
  takes its limit from a 16-bit cast of the count in the image's boot sector, which can hide
  free clusters, or all of them (`WrappedCountRefuses`). Tool and kernel leave the same image
  if and only if the clusters the tool can reach suffice, or its limit neither hides a free
  cluster nor shows a word beyond the FAT that looks free (`SameImageIffAlike`). On every disk
  that was formatted and then used the limit lies beyond the directory (`ReachableIsClean`),
  and the condition is: the name is refused, the directory is full, or the file fits
  (`AlikeIffAgreeable`).
- `dealloc_aligned` and `capacity_of` look two words in front of a pointer although a cell
  has one header word. A cell is put back on its list exactly when the word found there is
  not the sentinel, its capacity is right exactly when that word is its class; the word
  can be anything a neighbour stores (`NeighbourDecides`, `FreeGoesAstray`). The theorems
  about runs therefore let a cell be freed only while that word is not the sentinel.
- `allocate_frame` gives up a whole descriptor that starts at address 0, not only its
  first page (`DescriptorAtZeroIsLost`; exactly which frames are handed out, `SupplyMembers`).
- A task can be Terminated and still current (`TerminatedStaysCurrent`); otherwise being
  current and being Running are the same (`RunningIffCurrent`).
- The scheduler drops its lock before the stack pointer is stored, through a pointer into
  the array of tasks. That goes wrong in two ways: a second processor can dispatch the one
  switched out before the store (`TwoCpusLoadStaleStack`), and a task added before the store
  can move the array, so that the store misses (`GrowthLosesStack`). Over every run all
  dispatches load the latest pointer if and only if, whenever a task is resumed, its pointer
  was stored since it was switched out, and the array did not grow between switch and store
  (`LoadsLatestIffStoredInTime`). With one processor they always do (`OneCpuStacks`).
- A transfer ring whose slots are all outstanding can stall the controller: the Link TRB
  gets its cycle bit flipped while the controller still stands on it (`FullRingStalls`, for
  rings of every size). The stall lasts until the producer comes round to the Link again
  (`StallLastsALap`); what is received next is the TRB sent after that, and two laps of TRBs
  are lost (`TwoLapsAreLost`). The exact condition is `Room`, and
  one slot fewer always meets it (`ConsumerGoesOnIffRoom`, `OneFewerIsSafe`).
- An echo request with inconsistent lengths makes the code fault, or answer with checksums
  that do not verify: the answer is a fault if and only if the lengths do not fit
  (`EchoReply`), and every reply of given lengths verifies if and only if they are `Sound`
  (`RepliesVerifyIffSound`, with `ShortHeaderFails`, `SixteenByteHeaderFails`,
  `TwelveByteHeaderFails` and `ShortPartFails` for each kind of unsound lengths).

## Model

| member | source | states |
|---|---|---|
| `KagLayout.EntryRoundTrip` | src/fs.rs:142-162 | a directory entry survives encoding and decoding, and every 32 bytes survive decoding and encoding |
| `KagLayout.EntryBytes` | src/fs.rs:142-162 | where name, first cluster, size and flag stand in the 32 bytes |
| `KagLayout.BootRoundTrip` | src/fs.rs:105-140 | a boot sector survives being written and read |
| `KagLayout.RegionsAreDisjoint` | src/fs.rs:9-49 | boot sector, FAT, directory and clusters follow one another without overlap and every cluster ends inside the disk |
| `KagLayout.ClusterPlace` | src/fs.rs:255-257 | the byte at which each cluster starts |
| `KagLayout.ViewIsInjective` | src/fs.rs:9-49 | boot, FAT, directory and data together determine every byte of the disk |
| `KagLayout.FatWriteInView` | src/fs.rs:280-299 | two bytes at a FAT entry's place change that entry and nothing else on the disk |
| `KagLayout.DirWriteInView` | src/fs.rs:364-380 | 32 bytes at a directory slot's place change that slot and nothing else |
| `KagLayout.DataWriteInView` | src/fs.rs:255-257 | bytes written in the data area change neither boot sector, FAT nor directory |
| `KagVolume.LeastFree` | src/fs.rs:302-315 | the least free cluster from 2 on inside the FAT, or none when every entry is in use |
| `KagVolume.FreeChain` | src/fs.rs:319-334 | freeing a chain ends on every FAT, cyclic and cross-linked ones included, and never marks a free entry used |
| `KagVolume.NulPrefix` | src/fs.rs:393-397 | the stored name: the longest prefix without a NUL |
| `KagVolume.FindFile` | src/fs.rs:384-403 | the first slot in use that carries the name, or none carries it |
| `KagVolume.FreeSlot` | src/fs.rs:406-414 | the first slot not in use, or all are in use |
| `KagVolume.ReadChain` | src/fs.rs:553-567 | a read that succeeds returns exactly as many bytes as the entry says |
| `KagChains.FreeChainFreesChain` | src/fs.rs:319-334 | on a well-formed chain exactly its clusters become free and no other entry changes |
| `KagChains.FreeingAddsToFreeSet` | src/fs.rs:319-334 | the free set grows by exactly the chain, and by as many clusters as the chain has |
| `KagChains.EndsAndErrors` | src/fs.rs:319-334 | which FAT values end a chain and which are an error, for freeing and reading |
| `KagChains.ReadChainReadsChain` | src/fs.rs:545-567 | reading along a chain yields the first `size` bytes of its clusters in order |
| `KagChains.AttachFacts` | src/fs.rs:498-520 | one round of the allocate-and-link loop takes one free cluster, ends the chain in it, links the previous one to it, stores the chunk there followed by zeros, and touches nothing else |
| `KagChains.FillSucceeds` | src/fs.rs:488-524 | with enough free clusters the loop builds a fresh chain of exactly the needed length that holds the data |
| `KagChains.FillExhausts` | src/fs.rs:498-520 | without enough it uses up every free cluster, changes nothing that was in use, and reports `InvalidArgument` |
| `KagRefinement.RemoveSlot` | src/fs.rs:570-589 | removing an entry frees its chain, drops its file and keeps the volume invariant |
| `KagRefinement.InsertSlot` | src/fs.rs:527-537 | adding an entry with a chain of formerly free clusters keeps the volume invariant and adds the file |
| `KagRefinement.StoreSucceeds` | src/fs.rs:458-537 | a create that fits succeeds, stores exactly the data, keeps every other file, and uses exactly the clusters it needs |
| `KagRefinement.StoreFails` | src/fs.rs:498-499 | a create that does not fit keeps every file and the invariant, reports `InvalidArgument` and leaves no cluster free |
| `KagRefinement.StoredSizeFits` | src/fs.rs:527-535 | the 32-bit size field never truncates when the data fits the disk |
| `KagRefinement.FullDirectory` | src/fs.rs:406-414 | no slot is free exactly when 256 files are stored |
| `KagRefinement.ReadRefines` | src/fs.rs:540-568 | reading gives what the map of files gives, errors included |
| `KagRefinement.DeleteRefines` | src/fs.rs:570-589 | deleting does to the volume what it does to the map of files, errors included |
| `KagRefinement.CreateRefines` | src/fs.rs:458-537 | creating or overwriting does to the volume what it does to the map of files, every error included |
| `KagRefinement.FormatIsEmpty` | src/fs.rs:420-455 | formatting any disk yields the empty map of files with every cluster from 2 on free |
| `KagRefinement.FormattedBytes` | src/fs.rs:420-455 | every byte of a formatted disk before the data: the nine boot fields, the two reserved FAT entries, zeros |
| `KagRefinement.VolumeIsAFileStore` | src/fs.rs:420-589 | after formatting, every run of creates under names without a NUL, and of reads and deletes under any names, gives the answers of a finite map from names to bytes and keeps the volume invariant: chains acyclic, ended, of the right length, in range and disjoint, and names unique |
| `KagRefinement.ClustersAddUp` | src/fs.rs:302-334 | over every such run free clusters, clusters of files and clusters lost by failed creates add up to all clusters |
| `KagRefinement.ReadBackIffNulFree` | src/fs.rs:384-403 | after a successful create the data is read back under the name if and only if the name has no NUL byte |
| `KagRefinement.NulNameIsLost` | src/fs.rs:384-403 | on every disk, after formatting, a file created under a name with a NUL is not found again |
| `KagRefinement.FullVolumeIsInvalidArgument` | src/fs.rs:302-315 | on every disk, after formatting, a file larger than all clusters is refused with `InvalidArgument` |
| `KagSlots.CreateIsTableCreate` | src/fs.rs:458-537 | for names of every kind, creating does to the volume what it does to a table of slots searched from the front, every error included |
| `KagSlots.ReadIsTableRead` | src/fs.rs:540-568 | reading returns the contents of the first slot that carries the name, or the error |
| `KagSlots.DeleteIsTableDelete` | src/fs.rs:570-589 | deleting empties the first slot that carries the name and frees exactly its clusters |
| `KagSlots.VolumeIsATable` | src/fs.rs:420-589 | after formatting, every run whatever the names gives the answers of the table, and chains stay acyclic, ended, of the right length and disjoint |
| `KagSlots.ClustersAlwaysAddUp` | src/fs.rs:302-334 | over every run whatever the names, free, stored and lost clusters add up to all clusters |
| `KagSlots.NulNamesRepeat` | src/fs.rs:393-397 | creating twice under a name with a NUL leaves two files of one name |
| `KagDisk.FatSectorUpdate` | src/fs.rs:280-299 | rewriting a whole FAT sector with one entry patched is an update of that entry's two bytes |
| `KagDisk.DirSectorUpdate` | src/fs.rs:364-380 | rewriting a whole directory sector with one entry patched is an update of that entry's bytes |
| `KagDisk.Disk.ReadFatEntry` | src/fs.rs:260-277 | the FAT entry, or the error for a cluster outside the FAT or a disk that is not ready |
| `KagDisk.Disk.WriteFatEntry` | src/fs.rs:280-299 | updates exactly that FAT entry, or reports the error and changes no byte |
| `KagDisk.Disk.AllocCluster` | src/fs.rs:302-315 | returns the least free cluster and marks it as an end, or `InvalidArgument` with the volume unchanged |
| `KagDisk.Disk.FreeClusterChain` | src/fs.rs:319-334 | the loop ends on every disk and leaves the FAT of `FreeChain`, the rest of the volume untouched |
| `KagDisk.Disk.ReadDirEntry` | src/fs.rs:346-361 | the directory entry at the index, or the error |
| `KagDisk.Disk.WriteDirEntry` | src/fs.rs:364-380 | updates exactly that directory slot, or reports the error and changes no byte |
| `KagDisk.Disk.FindFile` | src/fs.rs:384-403 | finds the slot `FindFile` names and its entry; a bad name length is refused first |
| `KagDisk.Disk.FindFreeDirSlot` | src/fs.rs:406-414 | finds the slot `FreeSlot` names |
| `KagDisk.Disk.ReadBootSector` | src/fs.rs:216-228 | the decoded boot sector, or `NotFormatted` |
| `KagDisk.Disk.Format` | src/fs.rs:420-455 | writes the formatted volume, whatever was on the disk |
| `KagDisk.Disk.CreateFile` | src/fs.rs:458-537 | on the bytes of the disk does exactly what `Create` does to the volume, with its result, on every disk content and every input |
| `KagDisk.Disk.ReadFile` | src/fs.rs:540-568 | returns what `Read` returns on the volume |
| `KagDisk.Disk.DeleteFile` | src/fs.rs:570-589 | does exactly what `Delete` does to the volume, with its result |
| `HostTool.SameBootBytes` | tools/kef-tool/src/main.rs:54-66 | the tool's boot sector has the kernel's bytes |
| `HostTool.SameEntryBytes` | tools/kef-tool/src/main.rs:86-93 | the tool's directory entries have the kernel's bytes when the reserved field is zero |
| `HostImage.LeastRawInFat` | tools/kef-tool/src/main.rs:171-181 | for every limit: the tool's search finds the kernel's cluster if it is within the limit, and with a full FAT looks at what lies behind |
| `HostImage.FullFatSpillsIntoDirectory` | tools/kef-tool/src/main.rs:140-181 | with a full FAT and an empty slot the tool's allocation lands in the directory and changes it |
| `HostImage.RawFreeInFat` | tools/kef-tool/src/main.rs:183-197 | the tool's walk along a chain leaves the kernel's FAT whenever the kernel's walk succeeds |
| `HostImage.RawFillAgrees` | tools/kef-tool/src/main.rs:288-315 | the tool's allocate-and-link loop builds the kernel's volume whenever the kernel's succeeds |
| `HostImage.RawCreateAgrees` | tools/kef-tool/src/main.rs:264-327 | on every formatted image the tool's create leaves the kernel's volume with the same success, unless the kernel reports `InvalidArgument` |
| `HostImage.OverfullSpills` | tools/kef-tool/src/main.rs:264-327 | when the kernel's loop runs out of clusters, the tool's loop overwrites the first word behind the FAT that reads as free |
| `HostImage.RunsKeepClean` | src/fs.rs:458-589 | over every run of creates, reads and deletes directory slots not in use stay blank |
| `HostImage.ReachableIsClean` | src/fs.rs:420-589 | after formatting and every run, slots not in use are blank, the boot sector is that of the format, and the tool's limit lies beyond the directory |
| `HostImage.FillInReach` | tools/kef-tool/src/main.rs:288-315 | with enough free clusters within the limit the tool's loop builds the kernel's volume |
| `HostImage.LimitStops` | tools/kef-tool/src/main.rs:171-181 | a limit that hides a free cluster stops the tool where the kernel goes on |
| `HostImage.SameImageIffAlike` | tools/kef-tool/src/main.rs:264-327 | on every image of a file store and for every limit, tool and kernel leave the same image if and only if the name is refused, the directory is full, the clusters within the limit suffice, or the limit neither hides a free cluster nor shows a free-looking word beyond the FAT; and then both succeed or neither |
| `HostImage.AlikeIffAgreeable` | tools/kef-tool/src/main.rs:264-327 | with a limit beyond the directory that means: the name is refused, the directory is full, or the file fits |
| `HostImage.InReachAgrees` | tools/kef-tool/src/main.rs:264-327 | whenever the clusters within the limit suffice, the tool does to the volume what the kernel does |
| `HostImage.WrappedCountRefuses` | tools/kef-tool/src/main.rs:171-181 | an image the kernel works with as before, and on which the tool refuses every non-empty file |
| `HostTool.HostDisk.AllocCluster` | tools/kef-tool/src/main.rs:171-181 | takes the least word that reads as free up to the tool's 16-bit limit and marks it, or changes nothing, for every image and every cluster count |
| `HostTool.HostDisk.FreeClusterChain` | tools/kef-tool/src/main.rs:183-197 | ends on every image and leaves exactly the image of `RawFree`, chains that leave the FAT included |
| `HostTool.HostDisk.DeleteFile` | tools/kef-tool/src/main.rs:248-262 | leaves exactly the image of `RawRemove`; only a bad name length is refused |
| `HostTool.HostDisk.CreateFile` | tools/kef-tool/src/main.rs:264-327 | leaves exactly the image and result of `RawCreate` on every image and for every cluster count |
| `HostTool.HostDisk.Insert` | tools/kef-tool/src/main.rs:431-462 | checks the magic number, takes the cluster count from the boot sector, and leaves exactly the image and result of `Inserted` |
| `HostTool.HostDisk.Format` | tools/kef-tool/src/main.rs:329-364 | leaves the kernel's formatted volume |
| `HostTool.CreateOnBoth` | tools/kef-tool/src/main.rs:431-462 | from equal images of a file store, with any count in the boot sector, tool and kernel end with equal images if and only if they run alike, and then with the same success; with a limit beyond the directory that is: the name is refused, the directory is full, or the file fits |
| `HostTool.CreateOnAnyImage` | tools/kef-tool/src/main.rs:431-462 | from equal images, damaged and unformatted ones included, both end with equal images and the same success when the limit covers the FAT and the kernel does not report `InvalidArgument` |
| `HostTool.UnformattedRefused` | src/fs.rs:458-466 | creating on an unformatted volume changes nothing and reports the name if it is bad, otherwise `NotFormatted` |
| `HostTool.InsertThenRead` | tools/kef-tool/src/main.rs:431-462 | what the tool inserts, when the clusters within its limit suffice, the kernel reads back byte for byte, and all other files are kept; with a limit that covers the FAT that is whenever the file fits |
| `HostTool.FormatOnBoth` | tools/kef-tool/src/main.rs:329-364 | from equal images, both formats produce byte for byte the same image |
| `LargeList.AddrOfEnd` | src/allocator.rs:86-93 | the blocks tile their region: the last one ends where sizes and headers add up to |
| `LargeList.FirstFit` | src/allocator.rs:248-276 | the first free block that is large enough, or none is |
| `LargeList.TakeKeepsOrder` | src/allocator.rs:250-272 | allocating, with or without a split, never leaves two free neighbours and keeps sizes aligned |
| `LargeList.TakeIsTight` | src/allocator.rs:250-272 | a block taken exceeds the request by less than 48 bytes; otherwise exactly the rest becomes a free block |
| `LargeList.ReleaseKeepsOrder` | src/allocator.rs:280-311 | freeing with coalescing on both sides never leaves two free neighbours and keeps sizes aligned |
| `LargeList.ReleaseUndoesTake` | src/allocator.rs:243-311 | freeing what was just allocated restores the block list exactly |
| `LargeList.TakeUsed` | src/allocator.rs:243-277 | allocating puts exactly one more block in use and every other one stays where and as it was |
| `LargeList.ReleaseUsed` | src/allocator.rs:280-311 | freeing takes exactly that block out of use |
| `LargeList.UsedApart` | src/allocator.rs:243-311 | blocks in use lie inside the region and do not overlap |
| `LargeList.TakeConserves` | src/allocator.rs:243-277 | sizes plus headers keep their sum when a block is taken |
| `LargeList.ReleaseConserves` | src/allocator.rs:280-311 | sizes plus headers keep their sum when a block is freed |
| `HeapModel.BucketFor` | src/allocator.rs:167-174 | the smallest class that fits, or none above 4096 bytes |
| `HeapModel.LiveApart` | src/allocator.rs:178-235 | what two callers hold is disjoint, headers, padding and prefixes included |
| `HeapSafety.InitHeap` | src/allocator.rs:125-150 | initialisation establishes the heap invariant for every start and size for which the block header is aligned or there is no room for one |
| `HeapSafety.InitRegion` | src/allocator.rs:125-150 | it makes three quarters of the region arena and, if more than a header is left, all the rest one free block |
| `HeapSafety.FirstRequestServed` | src/allocator.rs:125-358 | a new heap serves every request for which its last quarter has room |
| `HeapSafety.AllocIsTight` | src/allocator.rs:167-358 | a cell is at most twice the request plus 8 bytes, a block exceeds what the request needs by less than 48 |
| `HeapSafety.SlabLeaves31` | src/allocator.rs:203-224 | a slab serves one request and leaves 31 free cells |
| `HeapSafety.AllocSmallFacts` | src/allocator.rs:178-224 | from a recycled cell, the arena or a new slab: a fresh, aligned payload of the size asked for, the invariant kept; on failure nothing changes |
| `HeapSafety.AllocLargeFacts` | src/allocator.rs:332-358 | the same for the large path, for every alignment |
| `HeapSafety.AllocFacts` | src/allocator.rs:321-358 | every request keeps the invariant, is served with a payload nobody holds, large and aligned enough, or fails and changes nothing |
| `HeapSafety.AllocFailsOnlyWhenFull` | src/allocator.rs:321-358 | a request fails if and only if its list is empty, the arena has no room and no free block is large enough |
| `HeapSafety.DeallocKeepsHeap` | src/allocator.rs:361-380 | every return keeps the invariant |
| `HeapSafety.FreeUndoesAlloc` | src/allocator.rs:178-380 | freeing what was just allocated restores the whole heap if and only if no new cell had to be carved for it |
| `HeapSafety.LiveInRegion` | src/allocator.rs:321-358 | everything an allocation occupies lies in the region, and holds the bytes asked for |
| `HeapMemory.NextPrevInverse` | src/allocator.rs:86-93 | next and prev pointers are mutual inverses and null exactly at the ends |
| `HeapMemory.SplitLinks` | src/allocator.rs:252-272 | the pointer writes of a split are the split of the list, and touch only headers |
| `HeapMemory.MergeLinks` | src/allocator.rs:291-309 | the pointer writes of a coalescing step are that step on the list, and touch only headers |
| `HeapImage.PopImage` | src/allocator.rs:182-192 | unlinking the first cell and writing its class is the pop of the list, and nothing else in memory changes meaning |
| `HeapImage.FreeSmallImage` | src/allocator.rs:227-235 | linking a cell in front is the return of the cell; the class is read from its header |
| `HeapImage.CutImage` | src/allocator.rs:203-224 | threading a slab's cells yields the list of all but its first cell |
| `HeapImage.PayloadIsQuiet` | src/allocator.rs:178-358 | no word of a live payload is a header, a cell's first word or a prefix word |
| `HeapImage.CallersCannotDisturb` | src/allocator.rs:178-358 | whatever word callers store in what they hold, every header, list and tag stays intact |
| `HeapWords.TakeLinks` | src/allocator.rs:250-272 | taking a block in memory is taking it in the list |
| `HeapWords.ReleaseLinks` | src/allocator.rs:280-311 | freeing a block in memory, both coalescing steps included, is freeing it in the list |
| `HeapWords.AllocGood` | src/allocator.rs:321-358 | the words an allocation writes stand for the heap after it, and no word of data any caller holds changes |
| `HeapWords.FreeGood` | src/allocator.rs:361-380 | the words a return writes stand for the heap after it, and no word of data any other caller holds changes |
| `HeapWords.RunKeepsHeap` | src/allocator.rs:178-380 | over every legal run of allocations, returns and stores by callers the words stand for a heap that keeps the invariant, and arena and block region keep their extent |
| `HeapWords.HeapIsSafe` | src/allocator.rs:125-380 | after every step of every such run from initialisation memory holds the heap: headers, lists and tags are intact, free lists hold only free cells, each once, no cell is lost, free neighbours are coalesced, what callers hold is disjoint, inside the region and large enough, and arena and blocks still are the whole region |
| `HeapWords.DataStays` | src/allocator.rs:178-380 | a word a caller has stored stays, over every such run, until that caller overwrites or frees it |
| `HeapBytes.WordsThenBytes` | src/allocator.rs:641-646 | copying whole words and then the low bytes of one more copies exactly the bytes asked for and changes nothing else |
| `HeapCode.SegregatedAllocator.constructor` | src/allocator.rs:125-150 | the words written at initialisation represent the initial heap, which fills the region |
| `HeapCode.SegregatedAllocator.BucketIndex` | src/allocator.rs:167-174 | trying the classes in order finds the smallest that fits |
| `HeapCode.SegregatedAllocator.AllocLargeRaw` | src/allocator.rs:243-277 | walking the next pointers takes the first fit, in memory and in the list, or changes nothing |
| `HeapCode.SegregatedAllocator.FreeLargeRaw` | src/allocator.rs:280-311 | for every pointer: of whatever block list is in memory the block is freed and coalesced, only headers change, and a block already free is left alone |
| `HeapCode.SegregatedAllocator.ThreadSlab` | src/allocator.rs:213-222 | the loop links every cell but the first in front of the list and tags the first |
| `HeapCode.SegregatedAllocator.AllocSlab` | src/allocator.rs:203-224 | a slab is cut from the first block that fits, or nothing changes |
| `HeapCode.SegregatedAllocator.AllocSmall` | src/allocator.rs:178-224 | the three ways of serving a small request are those of the heap, on its words |
| `HeapCode.SegregatedAllocator.FreeSmall` | src/allocator.rs:227-235 | the cell is at the head of the list its header names, and the heap is that after the return |
| `HeapCode.SegregatedAllocator.AllocAligned` | src/allocator.rs:321-358 | the code's result, lists and memory are those of `AllocWords`, and stand for the heap after `Alloc`, for every size and alignment |
| `HeapCode.SegregatedAllocator.DeallocAligned` | src/allocator.rs:361-380 | every legal return is that of `FreeWords`; a cell reaches its list if and only if the word two in front of it is not the sentinel |
| `HeapCode.SegregatedAllocator.CapacityOf` | src/allocator.rs:383-400 | right for every block; for a cell right if and only if the word two in front is its class, and where that is the sentinel, the number read from outside the heap |
| `HeapCode.SegregatedAllocator.CopyBytes` | src/allocator.rs:641-646 | exactly the bytes asked for are copied between places that do not overlap |
| `HeapCode.SegregatedAllocator.Realloc` | src/allocator.rs:627-651 | a block moves to a fresh payload that holds as many of its bytes as fit, and is freed; null is a plain allocation; without room nothing changes |
| `HeapCode.NeighbourDecides` | src/allocator.rs:366-380 | the word that decides is the last word of the cell in front, whose holder may store anything there |
| `HeapCode.FreeGoesAstray` | src/allocator.rs:361-380 | a run of two allocations, one store and one free in which the freed cell does not come back |
| `Frames.FrameAllocator.AllocateFrame` | src/memory.rs:38-63 | hands out the next frame of the supply, or none once it is exhausted |
| `Frames.SupplyMembers` | src/memory.rs:38-63 | exactly which frames are ever handed out: those of conventional descriptors that do not start at 0 |
| `Frames.DescriptorAtZeroIsLost` | src/memory.rs:38-63 | a usable page behind a descriptor that starts at 0 is never handed out |
| `Frames.SupplyIsFresh` | src/memory.rs:38-63 | for non-overlapping descriptors no frame is handed out twice, and all are page-aligned and not 0 |
| `PageTables.EntryWritten` | src/memory.rs:66-81 | an entry written is read back, all others unchanged |
| `PageTables.LeafFields` | src/memory.rs:126-127 | a leaf entry is present, and gives back its frame and its flags |
| `PageTables.TableEntryFields` | src/memory.rs:101-121 | an entry that links a table is present, leads to it, and takes away neither writing nor user access nor execution |
| `PageRights.LeafDecides` | src/memory.rs:96-127 | in a tree of tables the frame and rights the hardware finds for a page, combined over all four entries, are those of its leaf |
| `PageRights.LeafGives` | src/memory.rs:126-127 | the hardware finds the address and exactly the rights put into a leaf |
| `PageTables.SamePageIffSameIndices` | src/memory.rs:91-94 | two addresses are on one page if and only if their four indices agree |
| `PageTree.WalkStaysInTree` | src/memory.rs:96-127 | every table a walk passes is the tree's table for that path |
| `PageTree.LastTableDeterminesPath` | src/memory.rs:96-127 | two pages share a last-level table only if they differ in the last index alone |
| `PageTree.HangKeepsTree` | src/memory.rs:97-122 | linking a zeroed fresh frame keeps the tables a tree in which no link takes rights away |
| `PageTree.HangKeepsWalks` | src/memory.rs:97-122 | linking a zeroed fresh frame changes no translation |
| `PageTree.SetLeafWalks` | src/memory.rs:126-127 | writing one leaf changes that page's translation and no other |
| `Paging.DescendFacts` | src/memory.rs:96-124 | creating whichever of the three levels is missing uses exactly that many frames, keeps the tree and every translation, and fails exactly when frames run out |
| `Paging.MapRefinesUpdate` | src/memory.rs:84-128 | mapping succeeds if and only if there are frames for the missing levels, and then is a one-page update of the translation that keeps the tree |
| `PageCost.MapAdds` | src/memory.rs:84-128 | mapping a page adds exactly the tables on its path and keeps every other one |
| `PageCost.MissingIsNew` | src/memory.rs:96-122 | the frames one more page costs are the 512 GiB, 1 GiB and 2 MiB regions that it is the first to touch |
| `PageCost.NewTablesAdd` | src/memory.rs:96-122 | on top of any existing tables, what one set of pages costs and what another then costs add up to what both cost: the regions without a table that they touch |
| `AddressSpaces.AddressSpace.EnsureTable` | src/memory.rs:96-104 | one level: the present table, or a zeroed fresh one linked in |
| `AddressSpaces.AddressSpace.MapPage` | src/memory.rs:84-128 | the code, on bytes of frames, is that update, and succeeds exactly when frames suffice; the hardware then finds the frame with the rights in the flags, and for every other address what it found before |
| `AddressSpaces.MappedIsUpdate` | src/memory.rs:84-128 | the page translates to the frame and flags given, every other address as before |
| `AddressSpaces.MapSelf` | src/memory.rs:159-161 | mapping a page to itself is that update, also as the hardware sees it, costs exactly the missing levels, and succeeds if and only if there are as many frames |
| `AddressSpaces.IdentityMap` | src/memory.rs:157-172 | a range loop leaves, for the hardware, every page of the range and every earlier page mapped to itself and writable for the kernel, costs exactly the tables the range adds, and succeeds if and only if there are as many frames |
| `AddressSpaces.MapListed` | src/memory.rs:137-163 | the loop over the descriptors does this for all listed pages |
| `AddressSpaces.ListedMembers` | src/memory.rs:143-155 | which pages are listed: those of descriptors of kinds 1 to 7 and 9 to 12 |
| `AddressSpaces.FramebufferMembers` | src/memory.rs:165-170 | which pages are the framebuffer's: those that hold a byte of it |
| `AddressSpaces.InitPaging` | src/memory.rs:130-172 | afterwards, for the hardware, exactly the pages of the listed descriptors and of the framebuffer are mapped, each to itself, writable and for the kernel only, and all tables are among them; it succeeds if and only if there are frames for the root and one for every 512 GiB, 1 GiB and 2 MiB region those pages touch |
| `AddressSpaces.SmallMemorySuffices` | src/memory.rs:130-172 | memory maps that meet this: one descriptor of four pages or more inside a 2 MiB region |
| `AddressSpaces.BootFramesAreFresh` | src/memory.rs:130-134 | a sane memory map gives the frames that initialisation needs |
| `Kef.AllocateRun` | src/kef.rs:35-44 | a run of frames is returned if and only if the next frames are enough and contiguous; exactly which frames are gone, also when there are too few or there is a gap |
| `Kef.MapUser` | src/kef.rs:46-53 | the mapping loop maps exactly the run, each page to itself, and the hardware lets user code read, write and execute there and finds everything else as before; it adds exactly the tables it needs, and succeeds if and only if there are as many frames |
| `Kef.CopyCode` | src/kef.rs:55-68 | the code's frames hold the file's bytes, and neither tables nor other frames change |
| `Kef.CodeSurvives` | src/kef.rs:70-88 | later stack frames, tables and zeroing touch neither the code's bytes nor its mapping |
| `Kef.LoadSegments` | src/kef.rs:31-88 | code and stack in place if and only if the file is long enough and the frames suffice; refused, rather than panicked, if and only if a run finds too few frames or the file is cut short, and then the address space is valid with at most code pages added |
| `Kef.LoadKef` | src/kef.rs:14-94 | on success every byte of the file's code is in its frame and the last frame holds some of it, code, four stack pages and tables are disjoint, the hardware lets user code reach code and stack and finds everything else as before, entry point and stack pointer are right; it succeeds if and only if the file is well-formed and the next frames are, exactly as needed, an adjacent run for the code, frames for its tables, an adjacent run for the stack and frames for its tables; the exact cases in which it is refused, which leave a valid address space that differs only in pages of frames that were free |
| `Kef.HeaderByBytes` | src/kef.rs:3-32 | which bytes make an acceptable header |
| `Kef.HeaderBytes` | src/kef.rs:3-10 | where its fields stand |
| `Kef.PlentySuffices` | src/kef.rs:34-88 | four frames a page without a gap meet that |
| `Scheduler.FirstReady` | src/scheduler.rs:212-223 | the first ready task in a range, or none is |
| `Scheduler.NextIsNotCurrent` | src/scheduler.rs:239-242 | the "no switch needed" branch is never reached |
| `Scheduler.StepKeepsSafe` | src/scheduler.rs:200-317 | every locked step keeps: no task current on two processors, a current task is not Ready, a Running task is current |
| `Scheduler.RunsAreSafe` | src/scheduler.rs:200-317 | that holds in every state of every run, for any number of processors |
| `Scheduler.RunningIffCurrent` | src/scheduler.rs:200-317 | over every run a task is Running if and only if a processor, and only one, has it current and it is not Terminated |
| `Scheduler.TerminatedStaysCurrent` | src/scheduler.rs:224-235 | the last task, terminated, stays current on a processor that halts |
| `Scheduler.TerminatedForever` | src/scheduler.rs:297-317 | a terminated task stays terminated and is never dispatched again |
| `Scheduler.SwitchGetsCloser` | src/scheduler.rs:211-223 | a call dispatches the waiting task or strictly shrinks the cyclic distance to it |
| `Scheduler.WaitingEnds` | src/scheduler.rs:211-253 | a ready task is dispatched before one processor makes more calls than its distance |
| `Scheduler.BoundedWaiting` | src/scheduler.rs:211-253 | a ready task is dispatched before any one processor completes as many calls as there are tasks |
| `Scheduler.ContextsArePrivate` | src/scheduler.rs:273-286 | over every run a task finds, when dispatched, the user stack and GS base it last had, or its creation values |
| `Scheduler.KernelStacksAreRight` | src/scheduler.rs:263-271 | over every run a processor whose task has a kernel stack uses exactly that one; if no two tasks have the same, no two processors use the same |
| `Scheduler.KernelStackAfter` | src/scheduler.rs:263-271 | a dispatch brings the kernel stack of the new task, unless it has none; nothing else changes it |
| `Scheduler.RecordStays` | src/scheduler.rs:200-317 | no step changes the id or the stacks in a task's record |
| `Scheduler.TerminateRecords` | src/scheduler.rs:297-310 | ending a task sets its status and code, and nothing else anywhere |
| `Scheduler.ExitCodeIsLast` | src/scheduler.rs:297-317 | over every run a task's exit code is that of the last call that ended it |
| `SchedulerStacks.LoadsLatestIffStored` | src/scheduler.rs:255-292 | while the records are in order, a dispatch loads the latest stack pointer if and only if no processor has still to store it and the last store did not miss |
| `SchedulerStacks.LoadsLatestIffStoredInTime` | src/scheduler.rs:126-292 | over every run that starts with nothing outstanding, all dispatches load the latest stack pointer if and only if, whenever a task is resumed, each of its switch-outs was followed by its store before that, with no growth of the array in between |
| `SchedulerStacks.LoadsLatestIffNeverStale` | src/scheduler.rs:255-292 | the same in terms of states: if and only if no task is dispatched while it is being stored or after a store that missed |
| `SchedulerStacks.StoreHitsIffNoGrowth` | src/scheduler.rs:126-292 | for every run whatever, the store after a switch goes to the array in use if and only if no task added in between made it move |
| `SchedulerStacks.RecordRightIffNoGrowth` | src/scheduler.rs:126-292 | while all dispatches so far were right, the record has the latest stack pointer after the store if and only if the array has not moved since the switch |
| `SchedulerStacks.StartIsInOrder` | src/scheduler.rs:40-62 | the machine starts with nothing outstanding and its records in order, for any number of processors |
| `SchedulerStacks.StacksHandedOver` | src/scheduler.rs:255-292 | over every run in which no task is dispatched while it is being stored and the array does not move while a store is outstanding, every dispatch loads the latest stack pointer |
| `SchedulerStacks.OneCpuStacks` | src/scheduler.rs:255-292 | with one processor every dispatch of every run does |
| `SchedulerStacks.TwoCpusLoadStaleStack` | src/scheduler.rs:288-292 | a run of two processors in which one does not, because the store comes too late |
| `SchedulerStacks.GrowthLosesStack` | src/scheduler.rs:126-292 | a run of two processors in which one does not, because a task was added before the store |
| `SchedulerCode.FindReady` | src/scheduler.rs:211-223 | the wrapping search loop finds the next ready task in cyclic order |
| `SchedulerCode.SchedulerState.SwitchTask` | src/scheduler.rs:200-295 | the code is the step of the machine, every early return included, and keeps every processor on the kernel stack of its task |
| `SchedulerCode.SchedulerState.TerminateTask` | src/scheduler.rs:297-317 | marking, recording the code and switching away are the step of the machine; afterwards it is Terminated with that code |
| `SchedulerCode.SchedulerState.AddNewUserTask` | src/scheduler.rs:64-131 | appends a ready task under a fresh id; all its fields |
| `SchedulerCode.SchedulerState.AddNewTask` | src/scheduler.rs:139-198 | appends a ready kernel task under a fresh id; all its fields |
| `SchedulerCode.SchedulerState.GetTaskStatus` | src/scheduler.rs:360-376 | 0, 1 or 2 for a Ready, Running or Terminated task with that id, or 3 |
| `Nvme.StepKeepsInv` | src/nvme.rs:185-239 | every step of driver or device keeps phases, heads, tails and both doorbells in agreement |
| `Nvme.LookIsExact` | src/nvme.rs:203-239 | the driver sees a completion exactly when its own command's has been posted, and never a stale one |
| `Nvme.WaitsEndRight` | src/nvme.rs:185-239 | in every interleaving over any number of wraps a wait ends only on the completion of the command just submitted, although ids repeat, and the branch for other commands is never taken; the device reads exactly the commands given to the driver, in order, once each |
| `Nvme.DeviceStepsComplete` | src/nvme.rs:185-239 | the device always has a step that brings the wait closer to its end, and after it the queue is idle |
| `Nvme.WaitEndsOncePosted` | src/nvme.rs:203-239 | after any schedule, a fetch and a post by the device end the wait |
| `Nvme.QueuePair.SubmitCommand` | src/nvme.rs:185-201 | the code is the submit step, wrap of the tail included; what the device will fetch next is the command given |
| `Nvme.QueuePair.WaitForCompletion` | src/nvme.rs:203-239 | the polling loop comes to exactly what `Waited` says for every schedule of device steps, and ends only on its own command |
| `Xhci.EnqueueKeepsInv` | src/xhci.rs:165-187 | enqueueing with room keeps cycle bits, Link TRB and order right, wrap included |
| `Xhci.ConsumeKeepsInv` | src/xhci.rs:145-187 | a controller that obeys cycle bits and Link TRB takes the oldest outstanding TRB and never passes the enqueue point |
| `Xhci.ConsumerGoesOnIffRoom` | src/xhci.rs:165-187 | after an enqueue the controller can go on if and only if there was room |
| `Xhci.NoRoomStalls` | src/xhci.rs:165-187 | an enqueue without room stalls it with TRBs outstanding |
| `Xhci.OneFewerIsSafe` | src/xhci.rs:145-187 | with one slot spare there always is room |
| `Xhci.WithCycleFacts` | src/xhci.rs:165-167 | setting the cycle bit leaves parameter, status and every other control bit as they were |
| `Xhci.FullRingStalls` | src/xhci.rs:165-187 | for every ring size a run within the size that stalls |
| `Xhci.StallLastsALap` | src/xhci.rs:165-187 | that stall lasts exactly until the producer comes round to the Link again; nothing is received before |
| `Xhci.TwoLapsAreLost` | src/xhci.rs:165-187 | when it ends, two laps of TRBs are outstanding and the next TRB received is the one sent after them |
| `Xhci.RingDelivers` | src/xhci.rs:145-187 | over every run with room, across any number of wraps, what was received is what was sent first, in order, once each, equal in parameter, status and control but for the cycle bit |
| `Xhci.TransferRing.constructor` | src/xhci.rs:146-163 | a zeroed ring with a toggling Link TRB that leads back to its own address is the initial state |
| `Xhci.TransferRing.Push` | src/xhci.rs:165-187 | the code is the enqueue step; the slot holds the TRB given, with the cycle bit of this lap, and no other slot changes |
| `XhciEvents.HandleKeepsInv` | src/xhci.rs:699-805 | one round handles the oldest event, or stops exactly when there is none |
| `XhciEvents.PostKeepsInv` | src/xhci.rs:699-805 | a controller that posts into a ring that is not full keeps the invariant |
| `XhciEvents.OverrunLosesEvents` | src/xhci.rs:699-805 | posting into a full ring makes the driver see nothing |
| `XhciEvents.EventsDelivered` | src/xhci.rs:699-805 | over every run what was handled is what was posted first, in order, once each, equal but for the cycle bit |
| `XhciEvents.EventRing.ProcessEvents` | src/xhci.rs:689-806 | the loop ends, handles every waiting event in order, and leaves the register at the enqueue point with the busy flag written |
| `Checksum.SumFitsIffShort` | src/network/helper.rs:1-13 | the 32-bit sum cannot overflow if and only if the data has at most 131074 bytes |
| `Checksum.WordSumIsWeighted` | src/network/helper.rs:1-13 | the sum byte by byte: 256 times every first and once every second byte of a word, an odd last byte included |
| `Checksum.FoldKeepsValue` | src/network/helper.rs:15-17 | a fold shrinks the sum and keeps its ones'-complement value |
| `Checksum.Fold` | src/network/helper.rs:15-17 | the loop ends in the value modulo 65535 |
| `Checksum.CalculateChecksum` | src/network/helper.rs:1-20 | the loops compute the complement of the ones'-complement sum of the words, odd lengths included, whenever the 32-bit sum does not overflow |
| `Checksum.StoredChecksumVerifies` | src/network/helper.rs:1-20 | data whose zeroed, even-offset field gets its checksum stored has checksum 0 |
| `Checksum.RewriteIcmp` | src/network/arp.rs:146-157 | in place and for all lengths, exactly the frame of `IcmpRewritten` |
| `Checksum.RewriteIp` | src/network/arp.rs:159-166 | in place and for all lengths, exactly the frame of `IpRewritten` |
| `Checksum.EchoReply` | src/network/arp.rs:116-178 | exactly the echo requests for this host are answered; the code faults if and only if the lengths do not fit, and otherwise leaves exactly the frame of `Answer` |
| `Checksum.RequestByBytes` | src/network/arp.rs:116-146 | which frames are taken for requests, by the bytes at their offsets |
| `Checksum.RequestHasHeader` | src/network/arp.rs:116-140 | what is taken for a request never has header length 0 |
| `Checksum.SoundVerifies` | src/network/arp.rs:146-166 | for sound lengths both checksums of the answer verify, whatever the frame holds |
| `Checksum.RepliesVerifyIffSound` | src/network/arp.rs:146-166 | all replies of given header and total length verify if and only if the lengths are sound: a header of 20 bytes or more and 4 bytes of ICMP, or a header of 12 and a total of 20 |
| `Checksum.ShortHeaderFails` | src/network/arp.rs:146-166 | with a header length of 4 or 8, whatever the total, there is a reply whose header checksum does not verify |
| `Checksum.SixteenByteHeaderFails` | src/network/arp.rs:146-166 | with 16, whatever the total, there is a reply whose ICMP checksum does not verify |
| `Checksum.TwelveByteHeaderFails` | src/network/arp.rs:146-166 | likewise with 12 and a total below 20 |
| `Checksum.ShortPartFails` | src/network/arp.rs:146-166 | likewise with less than 4 bytes of ICMP |
| `Checksum.ReplyFields` | src/network/arp.rs:146-172 | MAC and IP addresses are exchanged, the type is a reply, and every byte outside the rewritten fields stays |

## Left out

- Locks are atomic critical sections: the spinlocks themselves, inline assembly, interrupts, MSR access and descriptor tables are hardware.
- Transfers below the block level: what the fields of NVMe commands mean, PRP lists and DMA buffers, and device errors other than a disk that is not ready. Blocks outside the disk are never asked for by the file system, so the block methods require a block inside it.
- `list_files`, the public wrappers that only take the lock, and the command line of the host tool would add only easy members.
- File names are byte strings; that Rust strings are UTF-8 plays no part.
- Machine word overflow in the heap: sizes and addresses are unbounded there, so a request near the largest machine word is not modelled. The `free` flag of a block header is a whole word rather than one byte.
- HeapSafety.InitHeap: requires that the first block header is aligned, since the code writes words through it, or that there is no room for one.
- HeapWords.HeapIsSafe: callers free only what they hold, or null, cells only while the word two in front is not the sentinel, store only whole words into what they hold, and use alignments of 1, 2, 4 or a multiple of 8, which all powers of two are.
- HeapCode.SegregatedAllocator.Realloc: requires a block or null. For a cell the number of bytes copied comes from a word that is not its own, as `CapacityOf` says, and can exceed both payloads. The lock is taken anew for each of its three steps; other callers between them are not modelled.
- Physical addresses are below 2^52 and the identity-mapped ones below 2^48; flags are the twelve low bits and the no-execute bit, so that combining them with an aligned address is an addition.
- Kef.LoadKef: nothing is said of the address space once the machine has panicked, on frames with a gap or for want of a frame for a table.
- SchedulerStacks.GrowthLosesStack: a store that misses is lost; what it overwrites in the freed array is not modelled.
- Building the first stack frame of a task, task names and the idle loop of further processors.
- Nvme.QueuePair.WaitForCompletion: takes the device's steps as a schedule and may return undone when the schedule ends, where the code goes on polling; `WaitEndsOncePosted` says the device can always end the wait.
- Xhci.RingDelivers: covers runs in which every enqueue has room; without it the controller stalls, as `NoRoomStalls` says.
- The command ring is the same code as the transfer ring without the endpoint number. Enumeration, descriptors, key tables and the key buffer are left out.
- ARP requests and replies, and the network drivers.
