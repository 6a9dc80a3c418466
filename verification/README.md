# AegisOS core, modelled and verified in Dafny

AegisOS is a small AArch64 kernel with a network stack, two file systems, a service supervisor and tools that build and
check its boot disk. This project models its stateful core in Dafny 4.11 and proves what that core is for: page tables
that refine a flat map, a file system that survives a crash at any sector write, a disk image whose validator reads back
what the builder wrote, a heap that conserves live bytes, address translation whose replies come home, a TCP receiver
that delivers a prefix of the stream whatever the network does, a scheduler with bounded waiting, and more.

`dafny verify dfyconfig.toml` checks everything. Code that updates state in place is modelled by classes, arrays and
loops, each proved against a specification on values; the theorems over whole runs are about those specifications.

| area | modules |
|---|---|
| machine integers, byte strings, lists | `MachineInts`, `Arith`, `Bytes`, `Lists` |
| frames, page tables, mapping | `PhysicalMemory`, `PageTableTree`, `PageTables` |
| kernel heap | `HeapLayout`, `KernelHeap` |
| AegisFS and its crash behaviour | `AegisFsFormat`, `AegisFsSpec`, `AegisFsRefinement`, `AegisFsCrash`, `AegisFs` |
| boot disk builder and validator | `Fat32Format`, `Fat32Builder`, `Fat32Validator`, `Fat32RoundTrip`, `Gpt`, `DiskImage` |
| IPv4 checksum, NAT, TCP, ARP, firewall | `InternetChecksum`, `Nat`, `TcpStream`, `TcpConnection`, `Arp`, `FirewallSpec`, `Firewall` |
| scheduler, supervisor, ELF loader, NVMe queue | `SchedulerSpec`, `Scheduler`, `SupervisorSpec`, `Supervisor`, `ElfLoader`, `NvmeSpec`, `Nvme` |
| configuration store, SHA-256 | `ConfigTable`, `ConfigStore`, `Sha256` |

Where the code does not do what one would expect of it, the model follows the code and a contract or lemma says exactly
when the expected law holds; those named as counterexamples below, and `DeleteLosesKey`, `FailureAtTickZero` and
`ReadyAfterShutdown`, give an input:

- AegisFS stores names of 80 bytes or more cut, and then never finds them (`ReadBackIffShort`). A write that runs out of
  space after taking a directory slot leaves an empty file behind (`WriteFile`).
- Deleting a configuration key loses every key whose probe passed over its slot (`DeleteAgreesIff`, `DeleteLosesKey`).
- A NAT port forward only matches packets from address 0, port 0 (`ForwardNeedsZeroRemote`), and cleaning up never
  removes a mapping (`Cleanup`).
- A TCP segment whose data offset lies outside the packet or inside the fixed header is taken wrongly (`PayloadIff`,
  `LongHeaderCounterexample`, `ShortHeaderCounterexample`).
- The IPv4 receive check differs from RFC 1071 for a stored 0xFFFF (`CheckVersusRfc`, `RfcCounterexample`).
- A load whose memory size wraps around can be copied past the backing (`CopyInsideIff`, `WrapCounterexample`).
- Loads that overlap can make code writable (`NeverWritesCodeIff`, `SegmentsApartIff`, `OverlapCounterexample`).
- A command that times out and completes late blocks its NVMe queue until the identifiers come round (`StaleBlocks`,
  `BlockedUntilRound`).
- A service asked to shut down while its process lives runs again at the next ready report (`StoppedStaysIff`,
  `ReadyAfterShutdown`), and a failure at tick 0 does not open a window (`KthFailure`, `FailureAtTickZero`).
- Freeing a free frame counts it twice (`FreePage`), and initialising the frame bitmap leaves the bits of a partial last
  byte as they were (`Init`).

## Model

| member | source | states |
|---|---|---|
| `PhysicalMemory.FrameAllocator.Init` | kernel/memory/physical_memory.c:33-44 | Frees every page of the whole bitmap bytes; pages in the last partial byte keep their old bit, and the free count is exact exactly when those bits were clear |
| `PhysicalMemory.FrameAllocator.AllocPage` | kernel/memory/physical_memory.c:46-55 | Hands out the lowest free page and takes exactly that page out of the free set; returns 0 exactly when nothing is free (or that page is at address 0); keeps the count exact |
| `PhysicalMemory.FrameAllocator.FreePage` | kernel/memory/physical_memory.c:57-62 | Adds exactly the page of that address to the free set; the free count stays exact if and only if the page was not already free (a double free counts twice) |
| `PhysicalMemory.FrameAllocator.ReserveRange` | kernel/memory/physical_memory.c:76-97 | Removes from the free set exactly the pages that share a byte with the range; EINVAL exactly when a non-empty range meets no managed page |
| `PageTableTree.IndexOfAddress` | kernel/memory/page_tables.c:78-81 | The four 9-bit indices a walk uses are the digits of the 36-bit page number |
| `PageTableTree.WalksMeet` | kernel/memory/page_tables.c:83-108 | In a well-formed forest two walks reach the same table only from the same root and along the same indices, so no table is shared |
| `PageTableTree.LinkEmptyStep` | kernel/memory/page_tables.c:83-105 | Linking a fresh zeroed page under an empty entry keeps the forest well formed, is reached by the walk, and changes no translation of any address space |
| `PageTableTree.NewRootKeepsTree` | kernel/memory/page_isolation.c:34-53 | A fresh zeroed page becomes a root that translates nothing and keeps the forest well formed |
| `PageTableTree.OutsideKeepsFlat` | kernel/memory/page_tables.c:34-41 | Clearing a page that is no table changes no translation |
| `PageTableTree.SetLeafFlat` | kernel/memory/page_tables.c:107-108 | Writing a level-3 entry changes exactly one page of exactly one address space: set when the entry is present, removed otherwise |
| `PageTableTree.FlatUnique` | kernel/memory/page_tables.c:113-136 | The flat map of an address space is the only map that agrees with the walk on every page number |
| `PageTables.PageAttrsAreBits` | kernel/memory/page_tables.c:43-63 | The bit-or of attribute words equals the arithmetic sum of the access, execute-never and type fields, for all 2^32 flag words |
| `PageTables.LeafEntryDecodes` | kernel/memory/page_tables.c:138-158 | For every frame and flag word the entry predicates read back exactly the requested user, write and EL0-execute permissions, and the frame comes back whole exactly when it is below 2^48 |
| `PageTables.Mmu.constructor` | kernel/memory/page_tables.c:65-69 | The kernel root starts as a well-formed forest with no translation |
| `PageTables.Mmu.AllocPageTable` | kernel/memory/page_tables.c:34-41 | A table page is zeroed, is no table already in use and is never handed out again; 0 only when no frame is left or frames start at address 0 |
| `PageTables.Mmu.Descend` | kernel/memory/page_tables.c:83-105 | Walks to the level-3 table, creating missing tables, without changing any translation even when it fails half way |
| `PageTables.Mmu.NewRoot` | kernel/memory/page_isolation.c:34-53 | A new address space translates nothing and no existing one changes |
| `PageTables.Mmu.Map` | kernel/memory/page_tables.c:71-111 | Refines a flat map: success updates exactly that page of that address space with the requested entry; failure changes no translation anywhere; EINVAL exactly for a null root, misalignment or a guard page; ENOMEM only without frames |
| `PageTables.Mmu.Query` | kernel/memory/page_tables.c:113-136 | Answers exactly from the flat map, both found and not found, with frame plus page offset |
| `PageTables.MapPagesAt` | kernel/memory/virtual_memory.c:13-22 | After mapping n pages every covered page has its own frame and every other page is as before, also across address wrap-around |
| `PageTables.UnmapPagesRemoves` | kernel/memory/virtual_memory.c:24-46 | Clearing page after page equals removing the set of covered pages |
| `PageTables.Mmu.VirtMap` | kernel/memory/virtual_memory.c:13-22 | Maps the pages in order; on failure exactly a proper prefix of them is mapped; other address spaces are untouched |
| `PageTables.Mmu.VirtUnmap` | kernel/memory/virtual_memory.c:24-58 | Removes exactly the covered pages, skipping missing tables, and touches no other address space |
| `KernelHeap.Heap.constructor` | kernel/memory/heap.c:16-21 | One free block that tiles the heap; no allocations |
| `KernelHeap.Heap.Kmalloc` | kernel/memory/heap.c:23-43 | Fails exactly when no free block is large enough, and then changes nothing; otherwise adds exactly one allocation, at an address not in use, of the rounded size or at most a header more; every live payload keeps its bytes |
| `KernelHeap.Heap.Kfree` | kernel/memory/heap.c:45-59 | Removes exactly that allocation; every other payload keeps its bytes; afterwards no two neighbouring blocks are both free |
| `KernelHeap.Heap.Coalesce` | kernel/memory/heap.c:49-58 | From any tiling to one without free neighbours, keeping the allocations and their bytes |
| `KernelHeap.Heap.Krealloc` | kernel/memory/heap.c:61-71 | The old bytes are a prefix of the new payload, the old allocation is gone, the others keep their bytes; on failure nothing changes |
| `HeapLayout.LiveDisjoint` | kernel/memory/heap.c:23-59 | Live payloads are pairwise disjoint and lie within the heap |
| `HeapLayout.AllFreeIsOneBlock` | kernel/memory/heap.c:45-59 | A tiling without free neighbours and without live blocks is one block |
| `KernelHeap.Heap.EmptyHeapIsInitial` | kernel/memory/heap.c:45-59 | Once everything is freed the heap is its single initial block again |
| `AegisFsFormat.Crc32` | fs/aegisfs.c:49 | The byte and bit loops compute one feedback step of the reflected polynomial 0xEDB88320 per message bit, from all ones, complemented at the end |
| `AegisFsFormat.SuperblockRoundTrip` | fs/aegisfs.c:51-59 | Decoding an encoded superblock gives it back |
| `AegisFsFormat.EntryRoundTrip` | fs/aegisfs.c:51-59 | Decoding an encoded directory entry gives it back |
| `AegisFsFormat.DirRoundTrip` | fs/aegisfs.c:108-116 | Parsing the written directory sectors gives the directory back |
| `AegisFsSpec.NameUnique` | fs/aegisfs.c:47 | A name field matches at most one name |
| `AegisFs.Partition.Read` | kernel/core/block_storage.c:124-127 | For a device that reports no error: succeeds exactly for a non-empty range inside the partition and returns its bytes |
| `AegisFs.Partition.Write` | kernel/core/block_storage.c:128-131 | For a writable device that reports no error: succeeds exactly for a non-empty range inside the partition; changes exactly those sectors, one logged write each in order |
| `AegisFs.FileSystem.FindEntry` | fs/aegisfs.c:72-76 | Finds the first valid entry of that name |
| `AegisFs.FileSystem.AllocEntry` | fs/aegisfs.c:77-80 | Takes the first unused slot for an empty file |
| `AegisFs.FileSystem.Persist` | fs/aegisfs.c:51-59 | Writes the directory sectors before the superblock, with the checksum of the directory; refused when read-only |
| `AegisFs.FileSystem.Format` | fs/aegisfs.c:61-70 | Leaves an empty file system that a later mount accepts as written |
| `AegisFs.FileSystem.MountPersistent` | fs/aegisfs.c:108-116 | Restores the recorded files, formats an unknown partition, or refuses a directory whose checksum is off, as the mount function of the disk says; after success mounting again would give the same, and a formatted partition is sound |
| `AegisFs.FileSystem.ReadFile` | fs/aegisfs.c:82-89 | Returns the exact slice of the file map, cut at end of file; a zero-length read inside the file gives EINVAL at a sector boundary |
| `AegisFs.FileSystem.WriteFile` | fs/aegisfs.c:90-102 | Succeeds exactly when a slot exists and the new extent fits; then the file map is the old one with the data overlaid at the offset, any gap zero, every other file unchanged; a failed write changes no sector, though a failure after taking a slot leaves an empty file of that name |
| `AegisFsRefinement.CommittedInv` | fs/aegisfs.c:90-102 | A write keeps the invariant: extents disjoint, below the next free sector, zero tails |
| `AegisFsRefinement.WriteContent` | fs/aegisfs.c:90-102 | For every name, the file map after a write is the overlay for that file and unchanged for all others |
| `AegisFsRefinement.ReadBackIffShort` | fs/aegisfs.c:48 | A file written under a name is found under it again if and only if the name is shorter than 80 bytes |
| `AegisFsRefinement.LongNameAbsent` | fs/aegisfs.c:72-76 | No name of 80 bytes or more is ever found |
| `AegisFsCrash.PersistThenMount` | fs/aegisfs.c:51-59 | A completed persist followed by a mount restores the same state |
| `AegisFsCrash.FreshMounts` | fs/aegisfs.c:61-70 | A formatted partition mounts as an empty file system that keeps the invariant |
| `AegisFsCrash.MountsToSame` | fs/aegisfs.c:108-116 | Mounting is idempotent: what a mount leaves on disk mounts as what it left in memory |
| `AegisFsCrash.CrashInData` | fs/aegisfs.c:95-100 | Any writes above the next free sector leave the mounted state and every file as they were |
| `AegisFsCrash.CrashInDirectory` | fs/aegisfs.c:51-59 | After any prefix of the directory writes a mount refuses exactly when the checksum of the torn directory differs, and old file contents are intact |
| `AegisFsCrash.CrashSafe` | fs/aegisfs.c:90-102 | After every prefix of data, directory and superblock writes a mount gives the old files or refuses; the complete sequence gives the new ones (given the checksum separates torn from old directory) |
| `AegisFsCrash.WriteCrashSafe` | fs/aegisfs.c:90-102 | The same for the actual trace of one file write from any sound state |
| `AegisFsCrash.CommittedSound` | fs/aegisfs.c:90-102 | A finished write is again a sound state, so crash safety holds along whole runs of writes |
| `InternetChecksum.IpChecksum` | net/ipv4.c:41-63 | The 32-bit accumulator never overflows for any buffer below 65536 bytes, the folding loop ends, and the result is the complement of the one's-complement sum |
| `InternetChecksum.FoldsToOnes` | net/ipv4.c:59-62 | Adding a word folds to 0xFFFF exactly when it is the complement of the folded sum (or both are all ones) |
| `InternetChecksum.SameWireBytes` | net/ipv4.c:41-63 | Summing little-endian and storing little-endian gives the same wire bytes as the big-endian sum of RFC 1071 |
| `InternetChecksum.StampedPasses` | net/ipv4.c:157-158 | A stamped header sums to 0xFFFF and passes the receive check |
| `InternetChecksum.CheckVersusRfc` | net/ipv4.c:86-94 | The recompute-and-compare check equals the RFC 1071 check except for one family: a field of 0xFFFF in a header with any other byte not zero |
| `InternetChecksum.RfcCounterexample` | net/ipv4.c:86-94 | A version 4 header of that family: it sums to 0xFFFF and is refused |
| `InternetChecksum.OneWordDetected` | net/ipv4.c:86-94 | Changing one word of an accepted header is missed exactly when it swaps 0x0000 and 0xFFFF and other bytes are not zero before and after |
| `InternetChecksum.BuildPacket` | net/ipv4.c:134-165 | Every built packet passes the receive checks and carries the given payload, addresses and protocol |
| `Nat.RecalcChecksum` | net/nat.c:68-76 | Rewrites only the checksum field, with the value over the whole header including options |
| `Nat.RecalcValid` | net/nat.c:68-76 | After it the header is valid and every other byte is unchanged |
| `Nat.Translator.Init` | net/nat.c:46-51 | Empties the table; the port counter is not reset |
| `Nat.Translator.AllocPort` | net/nat.c:62-66 | The n-th port of the 50001-port cycle |
| `Nat.PortCycles` | net/nat.c:62-66 | Successive ports count up from 10000 to 60000 and start over |
| `Nat.Translator.FindOutbound` | net/nat.c:78-91 | The first active mapping with all five fields equal, or none |
| `Nat.Translator.FindInbound` | net/nat.c:93-105 | The first active mapping for that external port, remote and protocol, or none |
| `Nat.Translator.AllocEntry` | net/nat.c:107-112 | Slots are used in order and never twice |
| `Nat.Translator.TranslateOutbound` | net/nat.c:114-156 | Keeps the table invariant; uses the flow's first mapping or a new one; the rewritten header is valid, with the new source and the old destination; refuses only when disabled, short or full, and then changes nothing |
| `Nat.Translator.TranslateInbound` | net/nat.c:158-185 | Translates exactly the packets with a mapping, to that mapping's internal address and port; changes nothing otherwise |
| `Nat.Translator.AddPortForward` | net/nat.c:188-202 | Adds one forward unless the table is full; existing mappings stay |
| `Nat.Translator.Cleanup` | net/nat.c:204-210 | Never removes a mapping, for any age, because every entry's age stamp is 0 |
| `Nat.Translator.ActiveCount` | net/nat.c:212-218 | Counts the mappings made since initialisation |
| `Nat.OutboundPortsDistinct` | net/nat.c:62-66 | External ports of outbound mappings are pairwise distinct in every reachable table |
| `Nat.ReplyFindsMapping` | net/nat.c:93-105 | A reply to an outbound mapping finds that very mapping if and only if its remote is not 0:0 or no earlier port forward has its external port and protocol |
| `Nat.ForwardNeedsZeroRemote` | net/nat.c:188-202 | A port forward matches a packet exactly when the packet comes from address 0, port 0 |
| `Nat.FlowKeepsMapping` | net/nat.c:78-91 | A flow keeps its mapping, and so its port, through every later change of the table |
| `Nat.ReplyReachesSender` | net/nat.c:114-185 | Outbound then inbound: the reply to a mapping no forward shadows is rewritten to the original internal address and port, with a valid checksum |
| `TcpStream.RunInOrder` | net/tcp.c:235-257 | For every loss, reordering and duplication of slices of one stream below 2^32 bytes, bytes handed out plus buffered are a prefix of it and the next sequence number tracks its length until FIN |
| `TcpStream.SameNumberSamePlace` | net/tcp.c:244 | Within 2^32 bytes a sequence number names one place in the stream |
| `TcpStream.CutCarries` | net/tcp.c:379-390 | Every piece the sender cuts is a slice of its stream placed by its sequence number |
| `TcpStream.SendsCarry` | net/tcp.c:379-390 | Every piece of any sequence of sends is a slice of the joined data placed by its sequence number |
| `TcpStream.EndToEnd` | net/tcp.c:235-390 | Sender and receiver together: for any sequence of sends, whatever the network does with their pieces, the application sees a prefix of the joined data |
| `TcpStream.LosslessDelivers` | net/tcp.c:235-390 | If every piece arrives and is read in turn, all the data is delivered |
| `TcpConnection.PayloadIff` | net/tcp.c:243-254 | For every packet: the bytes taken are those from the data offset on, and they lie between the 20-byte header and the end of the packet if and only if nothing is taken or the data offset is between 20 and the packet length |
| `TcpConnection.LongHeaderCounterexample` | net/tcp.c:243 | A 20-byte packet claiming a 60-byte header is taken as 65496 payload bytes and fills the buffer |
| `TcpConnection.ShortHeaderCounterexample` | net/tcp.c:243 | A 20-byte packet claiming an empty header hands its header to the application |
| `TcpConnection.Connection.Active` | net/tcp.c:310-337 | An active open: SYN sent, nothing buffered, sequence number past the SYN |
| `TcpConnection.Connection.Passive` | net/tcp.c:201-217 | A passive open expects the number after the peer's SYN |
| `TcpConnection.Connection.Receive` | net/tcp.c:200-298 | Each state moves exactly as the handshake and teardown cases say, with the acknowledged number and the acknowledgements sent; in ESTABLISHED the buffer and next number follow the stream model |
| `TcpConnection.Connection.Append` | net/tcp.c:240-256 | Copies what fits and advances by exactly the bytes kept |
| `TcpConnection.Connection.Recv` | net/tcp.c:367-377 | Hands out the oldest bytes once and shifts the rest; refused outside ESTABLISHED and CLOSE_WAIT |
| `TcpConnection.Connection.Send` | net/tcp.c:379-390 | Sends the cut pieces in order; a refused piece ends it, after a prefix of the pieces, with that piece's numbers used up |
| `Fat32Format.NameRoundTrip` | tools/image/validate-pr1-uefi-disk.py:145-149 | A short name written by the builder is decoded as its upper-case text |
| `Fat32Format.ShortEntryFields` | tools/image/build-pr1-uefi-disk.py:20-28 | The written entry reads back its name field, attribute, split cluster number and size |
| `Fat32Format.DirectoryRoundTrip` | tools/image/validate-pr1-uefi-disk.py:151-169 | Scanning entries written in a row and ended by zero lists exactly those items |
| `Fat32Builder.FatSizeConverges` | tools/image/build-pr1-uefi-disk.py:31-45 | The FAT size after the builder's rounds is large enough for the table it holds |
| `Fat32Builder.Fat32Image.constructor` | tools/image/build-pr1-uefi-disk.py:31-45 | An empty volume: nothing allocated, cluster 2 next |
| `Fat32Builder.Fat32Image.Alloc` | tools/image/build-pr1-uefi-disk.py:46-52 | Allocates the next run of clusters, at least one, and chains it; fails exactly when the FAT is used up; no earlier run changes |
| `Fat32Builder.Fat32Image.WriteChain` | tools/image/build-pr1-uefi-disk.py:54-58 | Fills one run with the data, cut to its length, and leaves every other run as it was |
| `Fat32Builder.Fat32Image.AddFile` | tools/image/build-pr1-uefi-disk.py:59-60 | Adds one run that holds the file's bytes, or fails exactly when they do not fit |
| `Fat32Builder.Fat32Image.WriteDir` | tools/image/build-pr1-uefi-disk.py:61 | A directory's cluster holds its entries and an end mark |
| `Fat32Builder.Fat32Image.Finish` | tools/image/build-pr1-uefi-disk.py:62-85 | Writes the boot sectors and both FATs without touching any file data |
| `Fat32Builder.RunRewritten` | tools/image/build-pr1-uefi-disk.py:54-58 | Writing inside one run keeps the contents of all others |
| `Fat32Validator.OpenGeometry` | tools/image/validate-pr1-uefi-disk.py:52-91 | Opens only volumes whose FATs and data area lie in this order inside the partition and the image, with clusters of at least one sector |
| `Fat32Validator.ChainUnique` | tools/image/validate-pr1-uefi-disk.py:112-132 | There is at most one chain from a cluster |
| `Fat32Validator.ChainDistinct` | tools/image/validate-pr1-uefi-disk.py:112-132 | A chain never repeats a cluster |
| `Fat32Validator.Chain` | tools/image/validate-pr1-uefi-disk.py:112-132 | On every opened image, built or arbitrary, the walk ends, and returns the chain exactly when one exists within the length limit |
| `Fat32Validator.ReadChain` | tools/image/validate-pr1-uefi-disk.py:134-143 | Returns the concatenated clusters of that chain, cut to the size; fails exactly when there is no chain or it is too short |
| `Fat32Validator.Directory` | tools/image/validate-pr1-uefi-disk.py:151-169 | Lists exactly the entries a scan to the first zero byte decodes, later names replacing earlier |
| `Fat32Validator.Find` | tools/image/validate-pr1-uefi-disk.py:171-188 | Follows the components through directories to the entry, or fails |
| `Fat32Validator.ReadFile` | tools/image/validate-pr1-uefi-disk.py:190-196 | Returns the bytes of the file at a path, never of a directory |
| `Fat32RoundTrip.Opens` | tools/image/validate-pr1-uefi-disk.py:52-91 | The validator opens every finished volume with the builder's geometry |
| `Fat32RoundTrip.RunIsChain` | tools/image/validate-pr1-uefi-disk.py:112-132 | Every run the builder made is the validator's chain |
| `Fat32RoundTrip.RunReads` | tools/image/validate-pr1-uefi-disk.py:134-143 | Reading a run back gives exactly the data written to it |
| `Fat32RoundTrip.DirectoryReads` | tools/image/validate-pr1-uefi-disk.py:151-169 | Reading back a written directory lists exactly its items |
| `Gpt.FindEspIff` | tools/image/validate-pr1-uefi-disk.py:232-247 | The search succeeds if and only if exactly one entry is an EFI system partition and its range is not empty, and gives that range |
| `Gpt.ReadGptIff` | tools/image/validate-pr1-uefi-disk.py:199-247 | A range is found if and only if it is that of the only EFI system partition of a disk whose marks, bounds and both checksums hold |
| `Gpt.Search` | tools/image/validate-pr1-uefi-disk.py:232-247 | The loop over the table succeeds if and only if exactly one entry is an EFI system partition with a non-empty range |
| `Gpt.LocateEsp` | tools/image/validate-pr1-uefi-disk.py:199-247 | On every image: returns a range if and only if it is that of the only EFI system partition of a disk whose marks, bounds and both checksums hold |
| `Gpt.WriteEntries` | tools/image/build-pr1-uefi-disk.py:116-121 | In the written table the search finds the EFI system partition's range |
| `Gpt.Header` | tools/image/build-pr1-uefi-disk.py:123-127 | The header carries its fields and the checksum of itself with the checksum field zero |
| `Gpt.GptReads` | tools/image/validate-pr1-uefi-disk.py:199-247 | Header and table at their places are read as written |
| `DiskImage.BuildEsp` | tools/image/build-pr1-uefi-disk.py:100-109 | Succeeds exactly when both files fit, and then holds both at their paths |
| `DiskImage.LoaderReads` | tools/image/validate-pr1-uefi-disk.py:190-196 | The boot loader's path reads back the loader's bytes |
| `DiskImage.KernelReads` | tools/image/validate-pr1-uefi-disk.py:190-196 | The kernel's path reads back the kernel's bytes |
| `DiskImage.DiskRoundTrip` | tools/image/validate-pr1-uefi-disk.py:249-260 | Reading a disk that holds a built system partition gives both files back |
| `DiskImage.Build` | tools/image/build-pr1-uefi-disk.py:91-135 | For all pairs of files: a disk is built exactly when it is at least 128 MiB and both fit, and the validator then reads back exactly those two files |
| `DiskImage.Validate` | tools/image/validate-pr1-uefi-disk.py:199-260 | Accepts exactly the disks whose two files are found, look bootable and equal the given ones |
| `SchedulerSpec.Run` | kernel/core/scheduler.c:56-167 | In every run the current task stays on the list and is the only one marked running; once started there always is one |
| `SchedulerSpec.IdleOnlyAlone` | kernel/core/scheduler.c:128-153 | A yield switches to the idle task only when no other task is ready |
| `SchedulerSpec.YieldCloser` | kernel/core/scheduler.c:128-167 | A yield runs a waiting task or strictly shortens its cyclic distance |
| `SchedulerSpec.DestroyNotFarther` | kernel/core/scheduler.c:83-108 | Destroying another task never lengthens the distance |
| `SchedulerSpec.BoundedWaiting` | kernel/core/scheduler.c:128-167 | In every run without new tasks a ready task runs within as many yields as its cyclic distance from the current task |
| `Scheduler.RoundRobin.constructor` | kernel/core/scheduler.c:49-54 | An empty scheduler |
| `Scheduler.RoundRobin.Append` | kernel/core/scheduler.c:28-36 | Walks the linked list and adds the task at its end, keeping the list acyclic |
| `Scheduler.RoundRobin.Create` | kernel/core/scheduler.c:56-81 | Adds a ready task at the end with the next number; fails exactly without entry or memory, leaving the list alone, though a failed stack allocation uses up a task number |
| `Scheduler.RoundRobin.PickFirstReady` | kernel/core/scheduler.c:38-47 | The first ready task of highest priority, or none exactly when none is ready |
| `Scheduler.RoundRobin.Start` | kernel/core/scheduler.c:110-122 | Starts a task exactly when one is ready |
| `Scheduler.RoundRobin.SetIdle` | kernel/core/scheduler.c:124-126 | Changes the idle task and nothing else |
| `Scheduler.RoundRobin.Destroy` | kernel/core/scheduler.c:83-108 | Unlinks exactly that task when it is not current, keeping the order of the others; a current task is only marked dead |
| `Scheduler.RoundRobin.Search` | kernel/core/scheduler.c:131-151 | The pointer walk round the cyclic list ends and meets the first ready non-idle task after the current one, or reports whether idle was met |
| `Scheduler.RoundRobin.FindNext` | kernel/core/scheduler.c:128-153 | Chooses the task that the cyclic-list specification gives |
| `Scheduler.RoundRobin.Yield` | kernel/core/scheduler.c:128-167 | The linked structure refines the list specification; halts exactly when nothing can run |
| `FirewallSpec.RunsAreSound` | net/firewall.c:116-166 | Over every run of packets and rule changes an enabled filter accepts a packet only by its first matching live rule, by the default when none matches or the packet is short, or because a rule accepted an earlier packet of the same conversation |
| `FirewallSpec.SoundFromInit` | net/firewall.c:48-57 | The same for every run from initialisation |
| `FirewallSpec.AcceptedIsTracked` | net/firewall.c:155-161 | A flow a rule accepts is tracked afterwards if and only if the table had room |
| `FirewallSpec.TrackedStays` | net/firewall.c:135-140 | A tracked conversation is accepted in both directions and still tracked after any step |
| `FirewallSpec.TrackedForGood` | net/firewall.c:116-166 | In every later run all its packets are accepted, whatever becomes of the rules |
| `FirewallSpec.DelRuleExact` | net/firewall.c:188-205 | Deleting a rule removes exactly that rule from the live ones |
| `Firewall.Filter.constructor` | net/firewall.c:48-57 | No rules, nothing tracked, enabled, dropping by default |
| `Firewall.Filter.Lookup` | net/firewall.c:81-98 | Finds an entry for the conversation in either direction exactly when one is active |
| `Firewall.Filter.Track` | net/firewall.c:100-114 | Adds one entry while there is room; each conversation has at most one |
| `Firewall.Filter.FirstRule` | net/firewall.c:142-163 | The list walk ends at the first live rule, in insertion order, that matches |
| `Firewall.Filter.Check` | net/firewall.c:116-166 | Verdict and tracking of the packet's bytes agree with the specification, short packets included |
| `Firewall.Filter.AddRule` | net/firewall.c:168-186 | Appends at the end of the linked list; fails exactly when all slots were ever used |
| `Firewall.Filter.DelRule` | net/firewall.c:188-205 | Unlinks the rule, keeping the others in insertion order; reports success for every identifier ever given out |
| `Firewall.Filter.FlushRules` | net/firewall.c:207-211 | No rule is live any more; tracked conversations stay |
| `NvmeSpec.SlotAndTag` | kernel/core/nvme.c:25-26 | Counting head and phase one entry at a time gives n mod 32 and the parity of n / 32 |
| `NvmeSpec.PhaseTestExact` | kernel/core/nvme.c:26 | In every reachable state the host's phase test at the head is true exactly when the device has posted the next completion, and the entry there is that completion |
| `NvmeSpec.PostKeeps` | kernel/core/nvme.c:26 | A device post keeps the ring invariant as long as the ring has room |
| `NvmeSpec.SubmitServes` | kernel/core/nvme.c:26 | A call that does not time out consumes the completion of its own command and returns its status |
| `NvmeSpec.RunServes` | kernel/core/nvme.c:26 | In every run without timeouts no completion is skipped, repeated or stale |
| `NvmeSpec.LateCompletion` | kernel/core/nvme.c:26 | A completion that arrives after its call timed out stays at the head, with the next identifier following its own |
| `NvmeSpec.StaleBlocks` | kernel/core/nvme.c:26 | With such a completion at the head a call gets past it if and only if its own identifier is the same; otherwise it fails and the head stays |
| `NvmeSpec.StaleRun` | kernel/core/nvme.c:26 | Every later polling call fails with an I/O error and leaves that completion at the head, until the identifiers come round |
| `NvmeSpec.ComesRound` | kernel/core/nvme.c:26 | After an identifier it is 65534 more calls before it comes again |
| `NvmeSpec.BlockedUntilRound` | kernel/core/nvme.c:26 | Over every run: up to 65534 polling calls after a late completion fail, and the next one gets past it if and only if there were 65534 |
| `Nvme.QueuePair.constructor` | kernel/core/nvme.c:25 | Zeroed ring, phase 1, head and tail 0 |
| `Nvme.QueuePair.DeviceStep` | kernel/core/nvme.c:26 | One device move on the shared ring, or none |
| `Nvme.QueuePair.Consume` | kernel/core/nvme.c:26 | Takes the completion at the head exactly when its identifier is the caller's, wrapping head and phase |
| `Nvme.QueuePair.Submit` | kernel/core/nvme.c:26 | The polling loop against every device schedule behaves as the two-party specification |
| `ConfigTable.SearchAgrees` | fs/configfs.c:96-118 | Probing finds exactly the keys of the map the table stands for, with their values |
| `ConfigTable.LongKeyNeverFound` | fs/configfs.c:96-118 | A key of 64 bytes or more is never found |
| `ConfigTable.SetFails` | fs/configfs.c:120-153 | Setting fails if and only if all 512 slots hold other keys |
| `ConfigTable.SetShort` | fs/configfs.c:120-153 | Setting a key below 64 bytes updates the map with the value cut to 255 bytes |
| `ConfigTable.SetLong` | fs/configfs.c:120-153 | Setting a longer key whose cut form hashes differently uses a slot but leaves the map unchanged |
| `ConfigTable.SetCollidingNew` | fs/configfs.c:120-153 | Setting a longer key that hashes like its cut form sets the cut key, while that is not in the map |
| `ConfigTable.SetCollidingKnown` | fs/configfs.c:120-153 | When the cut key is in the map no lookup changes, so the value is never read, but the key then stands in two slots |
| `ConfigTable.CrossingLosesKey` | fs/configfs.c:155-171 | A key whose probe passes over the deleted slot is lost |
| `ConfigTable.DeleteAgreesIff` | fs/configfs.c:155-171 | After a delete, lookups agree with the map without that key if and only if no other key's probe passes over its slot |
| `ConfigTable.NextFreeIsSafe` | fs/configfs.c:155-171 | Which is so whenever the cyclically next slot is empty |
| `ConfigTable.DeleteLosesKey` | fs/configfs.c:155-171 | Two keys with one start slot: deleting the first loses the second |
| `ConfigTable.Collision` | fs/configfs.c:35-42 | Two concrete keys with one start slot |
| `ConfigStore.Store.constructor` | fs/configfs.c:52-64 | An empty store stands for the empty map |
| `ConfigStore.Store.Find` | fs/configfs.c:99-106 | The probe loop ends within 512 steps at the result of the specification |
| `ConfigStore.Store.Get` | fs/configfs.c:96-118 | Returns the map's value, cut to the caller's buffer, exactly for its keys |
| `ConfigStore.Store.Set` | fs/configfs.c:120-153 | The array refines the map update for every key, short, long, or long and hashing like its cut form; failure exactly when full |
| `ConfigStore.Store.Delete` | fs/configfs.c:155-171 | Succeeds exactly for keys of the map; the store stays searchable when no probe crosses the slot |
| `Arp.PlaceIsSince` | net/arp.c:52-83 | The addresses ahead of an address in recency order are exactly those learned after it |
| `Arp.PresentIff` | net/arp.c:52-90 | An address is among the 64 most recent if and only if fewer than 64 other addresses were learned after it |
| `Arp.LearnKeeps` | net/arp.c:52-83 | Replacing the chosen slot keeps the ages in recency order and at most one valid entry per address |
| `Arp.OnlyLearned` | net/arp.c:85-90 | Only learned addresses are in the cache |
| `Arp.ArpCache.constructor` | net/arp.c:46-50 | An empty cache |
| `Arp.ArpCache.Find` | net/arp.c:53-60 | Finds the slot of an address exactly when it is cached |
| `Arp.ArpCache.FindEmpty` | net/arp.c:62-70 | Finds an unused slot exactly when one is left |
| `Arp.ArpCache.FindOldest` | net/arp.c:72-79 | The smallest age is the least recently learned address |
| `Arp.ArpCache.Lookup` | net/arp.c:85-90 | Answers if and only if the address was learned and fewer than 64 others since, with the most recent MAC |
| `Arp.ArpCache.Set` | net/arp.c:52-83 | Learns the pair, evicting the least recently learned when full |
| `Sha256.ExpandBlock` | security/src/integrity.rs:27-43 | The loop, which adds from the oldest word on, fills the message schedule in the order of FIPS 180-4 section 6.2.2 |
| `Sha256.RunRounds` | security/src/integrity.rs:44-64 | The eight-variable loop is the 64-fold round function |
| `Sha256.CompressBlock` | security/src/integrity.rs:26-73 | Schedule, rounds and final additions are the compression function |
| `Sha256.SumOrder` | security/src/integrity.rs:37-41 | Four words can be added from either end, for any commutative and associative addition |
| `Sha256.ShaAdds` | security/src/integrity.rs:37-41 | Wrapping 32-bit addition is such an addition |
| `Sha256.FoldPrefix` | security/src/integrity.rs:88-96 | Folding whole blocks depends only on those blocks |
| `Sha256.Absorb` | security/src/integrity.rs:88-96 | The byte-buffered loop has folded every whole block and buffers the rest |
| `Sha256.PadStarts` | security/src/integrity.rs:98-116 | The buffered tail and the 0x80 byte continue as the padding of FIPS 180-4 section 5.1.1 |
| `Sha256.MakeRoom` | security/src/integrity.rs:101-108 | A block without room for the length is filled with zeros and compressed; the padded message goes on in the next |
| `Sha256.LastBlock` | security/src/integrity.rs:109-116 | Zeros and the length complete the last block, which is compressed |
| `Sha256.Digest` | security/src/integrity.rs:76-116 | For every message below 2^64 bits the streaming loop, with its own compression loops, equals folding the compression function over the padded message |
| `Sha256.Sum` | security/src/integrity.rs:76-123 | The 32 bytes are the big-endian state of that fold with the operations and initial value of SHA-256 |
| `ElfLoader.Scan` | kernel/core/elf_loader.c:252-266 | The loop's verdict, lowest and highest page and entry flag over all PT_LOAD headers |
| `ElfLoader.Validate` | kernel/core/elf_loader.c:236-269 | Accepts exactly the images the loader's rules allow; EPERM only for a segment both writable and executable |
| `ElfLoader.LoadsFit` | kernel/core/elf_loader.c:259-286 | Every load of an accepted image without wrapping loads lies within the backing and its bytes within the file |
| `ElfLoader.LoadStartsInside` | kernel/core/elf_loader.c:259-286 | Every load of any accepted image starts within the backing |
| `ElfLoader.CopyInsideIff` | kernel/core/elf_loader.c:286-287 | For every load of any accepted image that passes the copy guard, the copy stays inside the backing if and only if its addresses do not wrap around or its file bytes alone fit |
| `ElfLoader.NonWrappingInside` | kernel/core/elf_loader.c:286-287 | Without wrapping loads every copy passes the guard and stays inside |
| `ElfLoader.WrapCounterexample` | kernel/core/elf_loader.c:286-287 | An accepted image whose copy passes the guard and runs past the backing |
| `ElfLoader.CopyLoop` | kernel/core/elf_loader.c:271-291 | With byte-disjoint loads the backing holds each segment's file bytes followed by zeros |
| `ElfLoader.FullRangeExact` | kernel/core/elf_loader.c:123-129 | The wrap-guarded comparison is true exactly for a non-empty range inside the area |
| `ElfLoader.WriteRangeOk` | kernel/core/elf_loader.c:454-459 | Accepts exactly ranges wholly in the stack or in one writable segment |
| `ElfLoader.WritesNoOtherSlot` | kernel/core/elf_loader.c:454-459 | An accepted range meets no other slot |
| `ElfLoader.NeverWritesCodeIff` | kernel/core/elf_loader.c:454-459 | Accepted ranges never meet executable bytes if and only if no writable segment of the slot overlaps an executable one |
| `ElfLoader.SegmentsApartIff` | kernel/core/elf_loader.c:283-291 | Which holds of a loaded slot if and only if it holds of the image's loads |
| `ElfLoader.DisjointLoadsKeepCode` | kernel/core/elf_loader.c:253-262 | And that holds for every accepted image with byte-disjoint loads |
| `ElfLoader.OverlapCounterexample` | kernel/core/elf_loader.c:253-262 | An accepted image with a data segment on top of its code: in its slot the write check accepts bytes of code |
| `ElfLoader.EntryIsCode` | kernel/core/elf_loader.c:263-268 | The run-time entry lies in an executable segment |
| `ElfLoader.Loader.constructor` | kernel/core/elf_loader.c:223-234 | All slots free |
| `ElfLoader.Loader.FirstFree` | kernel/core/elf_loader.c:208-221 | The first slot not in use |
| `ElfLoader.Loader.Load` | kernel/core/elf_loader.c:301-319 | Succeeds exactly for an accepted image and a free slot; fills the first free slot only; the entry is code; the write check never reaches code if and only if no writable load overlaps an executable one; with disjoint loads every segment is in place |
| `ElfLoader.Loader.Release` | kernel/core/elf_loader.c:351-370 | Frees exactly a used slot other than the boot slot |
| `ElfLoader.Loader.SlotWriteOk` | kernel/core/elf_loader.c:454-459 | Accepts exactly the writable ranges of a used slot, all of them outside every other slot |
| `ElfLoader.Loader.SlotReadOk` | kernel/core/elf_loader.c:448-453 | Accepts exactly the readable ranges of a used slot |
| `SupervisorSpec.StepCounts` | kernel/core/service_supervisor.c:305-446 | Every step keeps the running count exact and the faulted count at least the number of faulted services |
| `SupervisorSpec.RunCounts` | kernel/core/service_supervisor.c:305-446 | So over every run of spawn, ready, exit and shutdown steps |
| `SupervisorSpec.NoteRestartCounts` | kernel/core/service_supervisor.c:415-430 | Noting a restart keeps the counts if and only if the service was not running |
| `SupervisorSpec.StepAgrees` | kernel/core/service_supervisor.c:305-446 | Every step keeps the recorded process of each known service equal to its live one |
| `SupervisorSpec.RunAgrees` | kernel/core/service_supervisor.c:305-446 | So over every run |
| `SupervisorSpec.StoppedStaysIff` | kernel/core/service_supervisor.c:345-386 | A stopped service stays stopped through a step if and only if the step is not a ready report of its still live process, nor its exit within budget |
| `SupervisorSpec.ReadyRevives` | kernel/core/service_supervisor.c:345-356 | A live service asked to shut down is stopped, and running again at its next ready report |
| `SupervisorSpec.ReadyAfterShutdown` | kernel/core/service_supervisor.c:345-356 | The first service ever started is such a case |
| `SupervisorSpec.StoppedForGood` | kernel/core/service_supervisor.c:399-413 | Once stopped with its process gone, every attempt to start it in any later run is refused and changes nothing |
| `SupervisorSpec.ShutdownForGood` | kernel/core/service_supervisor.c:399-446 | Once asked to shut down, live or not, every attempt to start it in any later run is refused and changes nothing |
| `SupervisorSpec.KthFailure` | kernel/core/service_supervisor.c:371-375 | The k-th failure within one window, any window, is counted as the k-th if and only if the window did not open at tick 0 or k is 1 |
| `SupervisorSpec.FailureAtTickZero` | kernel/core/service_supervisor.c:372 | Failures at ticks 0 and 5 count as one |
| `SupervisorSpec.RunSpends` | kernel/core/service_supervisor.c:305-446 | Over every run a service's restart budget is spent exactly by the exits of its own process, whatever happens in between |
| `SupervisorSpec.WindowBudget` | kernel/core/service_supervisor.c:371-381 | In every run the k-th exit of a service within one window delays its restart by the base times 2^min(k-1, 6) and stops it exactly when k exceeds the allowance |
| `SupervisorSpec.TooManyStops` | kernel/core/service_supervisor.c:376-413 | In every run a service that exits more often in one window than it may restart is stopped, and never started again whatever follows |
| `Supervisor.ServiceSupervisor.constructor` | kernel/core/service_supervisor.c:79-84 | No services, all counts zero |
| `Supervisor.ServiceSupervisor.FindIndex` | kernel/core/service_supervisor.c:106-115 | The first service of that name |
| `Supervisor.ServiceSupervisor.RegisterStarting` | kernel/core/service_supervisor.c:305-343 | Counts stay exact and other services untouched; EINVAL exactly for an empty name or no process, ENOMEM exactly for a new name in a full table, and then nothing changes; otherwise the name is found with that process, starting or restarting, and a running service leaves the running count |
| `Supervisor.ServiceSupervisor.SetRunning` | kernel/core/service_supervisor.c:345-356 | Counts stay exact and other services untouched; succeeds exactly for the recorded process, which is running then and counted once; otherwise nothing changes |
| `Supervisor.ServiceSupervisor.SetExited` | kernel/core/service_supervisor.c:358-386 | Counts stay exact and other services untouched; succeeds exactly for the recorded process, which is faulted or stopped then; otherwise nothing changes |
| `Supervisor.ServiceSupervisor.RestartNoted` | kernel/core/service_supervisor.c:415-430 | Other services stay untouched; succeeds exactly for a known service and no shutdown; the counts stay exact if and only if the service was not running |
| `Supervisor.ServiceSupervisor.ShutDown` | kernel/core/service_supervisor.c:432-439 | Counts stay exact and other services untouched; afterwards a restart of the service is refused at every time |
| `Supervisor.ServiceSupervisor.HaltAll` | kernel/core/service_supervisor.c:441-446 | Counts stay exact; afterwards a restart of any known service is refused at every time |
| `Supervisor.ServiceSupervisor.SpawnSupervised` | kernel/core/syscall.c:354-416 | The steps of a spawn in the order the system call takes them keep the counts exact and other services untouched; a refused spawn changes nothing |

## Left out

- Init: takes a page-aligned base, an area below 2^48 and no more pages than the bitmap has bits; with more the code halts.
- ReserveRange: takes ranges whose end, rounded up to a page, does not wrap around 2^64.
- VirtMap: takes sizes that do not wrap when rounded up to a page; so does VirtUnmap. The TLB invalidation is not modelled.
- Kmalloc: takes requests that do not wrap when rounded up to 8 bytes; so does Krealloc.
- Kfree: is given live pointers or null, as is Krealloc; what the code does with any other pointer is not modelled.
- ReadFile: takes offset plus length below 2^64; so does WriteFile.
- MapPagesAt: is for at most 2^36 pages, after which addresses repeat.
- Service names of 32 bytes or more: they are cut when stored and never found again, so no claim is made about them.
- Crc32: is tied to its feedback steps, not to polynomial division.
- Read: does not model errors of the device driver; nor does Write, nor a read-only partition.
- MountPersistent: does not model a missing partition or a refused mount point.
- WriteDir: takes fewer than 16 entries, as the builder gives it.
- CrashSafe: assumes the checksum tells a torn directory from the old one, as does WriteCrashSafe; how likely CRC-32 is to do so is not modelled. A sector is written whole or not at all, and only AegisFS writes its partition (kernel/core/update.c also writes sector 96 of it).
- Build: takes the checksum function, the GUIDs and the partition names as parameters; the protective MBR is modelled only as far as its signature and partition names as 72 given bytes.
- Find: takes a path as its components; splitting a path string is not modelled.
- Load: takes PT_LOAD ranges that do not wrap around 2^64 (CopyInsideIff says what the copy of the others does), and headers as records; overlaying them on the file's bytes is not modelled.
- TranslateOutbound: takes the wide-area address as a parameter, and a packet whose header and ports lie within its buffer; so does TranslateInbound.
- Set: in the ARP cache, holds before the 32-bit age counter wraps. In the configuration store, after setting a key of 64 bytes or more that hashes like a key already there, nothing further is claimed for that run.
- Delete: after a delete that loses keys the store is no longer covered by Valid, so nothing further is claimed for that run.
- BoundedWaiting: is for runs in which no task is added; a task created while another waits can come before it.
- Create: does not model a freed task's address coming back as a new task.
- Submit: models one queue; the identifier counter that both queues share and an overrun submission queue after many timeouts are not modelled.
- Sum: takes messages below 2^64 bits, as FIPS 180-4 does.
- SetExited: does not model the wrap-around of 32-bit counters in the supervisor.
- Send: does not model retransmission, windows or the segment checksum; the code has no retransmission. Opening, accepting and closing sockets are modelled only as the states Receive starts from.
- Ageing in the NAT and firewall tables: no clock is modelled, and the stamps are only ever written as 0.
- Changing a service's restart policy: nothing in the repository calls it.
- The legacy supervisor path (registering user processes in bulk and the fault proofs), milestone flags and self-tests.
- kernel_main, userland, release notes and developer-preview code: straight-line flag setting.
- MMIO, assembly, caches, interrupt controller, timer, UART and PCI: hardware effects.
- DHCP, DNS, IPv6, UDP, sockets, HTTP and the console: packet plumbing and user interface.
- Loading and syncing the configuration store: entries are not persisted by the code.
- Field and curve arithmetic of security/src/secure_boot.rs.
