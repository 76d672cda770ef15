# Verified models of the Generic kernel

Generic is a small x86_64 kernel in Rust with a reference instruction set in
Python. This project models its hardest logic in Dafny and proves what that
logic is for. Source positions are given in the table below.

* **Page tables** (`PageTables`, `BootTables`, `UserAccess`). `clone_root` copies
  a four-level table tree through an allocator that may refuse or misbehave.
  A success is a faithful copy in fresh frames; a failure gives back every frame
  it took, once, and says who is to blame. The physical memory manager is such
  an allocator. User memory checks agree between a tree and its copy.
* **Physical memory, heap, boot map** (`Ranges`, `PhysicalMemory`, `MemoryMaps`,
  `Heap`). Free lists in fixed arrays, updated in place, stand for sets of
  addresses and are always the unique canonical list for their set. The bump
  allocator and the manager hand out the same frames from any map both accept.
* **GenericFS** (`GenericFsDisk`, `GenericFsTree`, `GenericFsExtents`,
  `GenericFsVolume`, `GenericFsFormat`, `GenericFs`, `GenericFsAgreement`,
  `Unicode`). Every sector write goes through one method that records the state
  of the device, so crash states are the recorded states. Each operation keeps
  the volume well formed in all of them, except for lengths that wrap around.
* **VFS** (`Paths`, `Routing`, `DirTree`, `MountRuns`, `RamFs`, `GenericFsDirs`,
  `PathTree`, `Vfs`). Path normalisation, mount routing, and mount points that
  persist over every run, for any filesystem that changes like a tree. Over
  memory filesystems, all that is mounted is one map from paths to entries, and
  each operation changes it at one path.
* **x128** (`X128Machine`, `X128Assembler`, `X128Symbolic`, `X128Simulation`).
  The emulator on an assembled image simulates the labelled program.
* **Initramfs** (`Initramfs`, `Unpack`, `HostDirectory`). From a directory of the
  build machine through the archive to the mounted tree: exactly when it arrives,
  and that it then arrives whole.
* **Scheduler** (`Scheduler`) and **ELF loading** (`Elf`, `ElfLayout`, `UserImage`).

Integers are unbounded in the model; the source's widths, wrap-around,
saturation and overflow checks are written out where they matter. Clocks,
allocator answers and mapping failures are parameters or arbitrary choices.

## Where the code does not do what one would expect

* **A GenericFS file that grows in place loses what it held.** `find_extent`
  leaves out the file's own extent, so the lowest fit may overlap it, and
  `ensure_capacity` zeroes the new extent before it copies the old one.
  `GenericFsAgreement.AppendLosesContents` and
  `GenericFsAgreement.ExtendLosesContents` are a concrete volume and calls;
  `GenericFsAgreement.WriteAgreesIff` and `GenericFsAgreement.TruncateAgreesIff`
  say, of the volume before the call, exactly when it agrees with the memory
  filesystem.
* **A GenericFS length within 511 of the largest wraps around.** The shipped build
  has no overflow checks (Cargo.toml:13-17), so `sectors_for_len` returns zero,
  the file counts as large enough, and the gap before the end is zeroed up to the
  end of the device before the error. `GenericFsAgreement.WipeHarmlessIff` says
  exactly when nothing is harmed; `GenericFsAgreement.WipeErasesVolume` shows the
  worst case.
* **An x128 label can capture the numbers of a `puts`.** `puts` is expanded to
  text, and immediates look for a label first. `X128Simulation.CapturedByLabel`
  is a concrete program; `X128Simulation.PutsPrintsIff` gives the exact
  condition.
* **A crash inside `format` can leave a volume that never mounts.** Between its
  last two writes the superblock is good and the root is missing; at every
  earlier point the volume would be formatted again
  (`GenericFsFormat.FormatEnds`).

## Model

| member | source | states |
|---|---|---|
| `PageTables.RelinkKeepsTarget` | crates/kernel-core/src/page_tables.rs:96 | a relinked entry points at the new child |
| `PageTables.RelinkKeepsFlags` | crates/kernel-core/src/page_tables.rs:96 | and keeps all other bits of the old entry |
| `PageTables.EntryFields` | crates/kernel-core/src/page_tables.rs:79-97 | presence, size and target of an entry, and which addresses are usable, as numbers |
| `PageTables.LargeLeaves` | crates/kernel-core/src/page_tables.rs:81-92 | a large leaf is refused at level 2 if and only if it is no multiple of 2 MiB, at level 3 of 1 GiB, and always at level 4 |
| `PageTables.BadHugeIff` | crates/kernel-core/src/page_tables.rs:81-92 | the mask test is that alignment, which is how the legal trees of `CloneRoot` are defined |
| `PageTables.TableMemory.Allocate` | crates/kernel-core/src/page_tables.rs:16-24 | the allocator contract: a refusal, or a frame not in use, which need not be usable; nothing else changes |
| `PageTables.TableMemory.Release` | crates/kernel-core/src/page_tables.rs:16-24 | only a frame granted and not yet released may be released |
| `PageTables.TableMemory.Write` | crates/kernel-core/src/page_tables.rs:16-24 | one entry of one table changes |
| `PageTables.ReleaseTree` | crates/kernel-core/src/page_tables.rs:109-119 | releases exactly the frames of the tree, each once, and asks for none |
| `PageTables.CloneTable` | crates/kernel-core/src/page_tables.rs:49-107 | a success copies the subtree into fresh distinct frames and counts them; a failure leaves all tables as they were and names its cause |
| `PageTables.FillTable` | crates/kernel-core/src/page_tables.rs:76-107 | a granted frame becomes a copy, or it and all below it is released |
| `PageTables.CopyEntries` | crates/kernel-core/src/page_tables.rs:79-102 | the entries before the first failing one are copied and the rest is zero |
| `PageTables.CopyEntry` | crates/kernel-core/src/page_tables.rs:79-102 | one entry is copied, relinked or refused |
| `PageTables.CopyChild` | crates/kernel-core/src/page_tables.rs:93-97 | a child is linked only once its whole subtree is copied |
| `PageTables.BlameRises` | crates/kernel-core/src/page_tables.rs:79-106 | the cause of a failure at an entry is a cause for the whole tree, with the room counted in frames |
| `PageTables.GrantsAreHeld` | crates/kernel-core/src/page_tables.rs:36-47 | with grants only, one more frame is held per grant |
| `PageTables.CloneRoot` | crates/kernel-core/src/page_tables.rs:36-47 | succeeds if and only if the source tree has usable addresses, no cycle and aligned large leaves, fits the limit and the allocator cooperates; `table_frames` is the number of frames granted and the size of the unfolded tree; a failure holds no frame more than before |
| `PageTables.CloneAndRelease` | crates/kernel-core/src/page_tables.rs:36-119 | releasing a successful clone restores tables and held frames exactly |
| `PageTables.SameWalk` | crates/kernel-core/src/page_tables.rs:79-102 | for every address the walk of the copy meets the same flags at each level and the same leaf |
| `PageTables.IndicesAddUp` | kernel/src/arch/memory.rs:365-370 | an address below 2^48 is the sum of its four indices, each in pages of its level, and its page offset |
| `BootTables.AddressInjective` | kernel/src/arch/memory.rs:30-50 | different frames have different addresses |
| `BootTables.TracksGrant` | kernel/src/arch/memory.rs:31-34 | a page taken from the manager is not held, and the list is short of exactly the pages held |
| `BootTables.TracksRelease` | kernel/src/arch/memory.rs:36-39 | a held page is not free, and once returned it is |
| `BootTables.FrameShrinks` | crates/kernel-core/src/physical.rs:81-138 | taking the lowest page never lengthens the free list |
| `BootTables.ReturnGrows` | crates/kernel-core/src/physical.rs:140-188 | returning a block lengthens it by at most one |
| `BootTables.AccountedNext` | kernel/src/arch/memory.rs:30-50 | one answer of the manager keeps its list and its size in step with the pages held |
| `BootTables.ServedAccounts` | kernel/src/arch/memory.rs:30-50 | so does every run of answers, whatever it is asked: pages held are grants less returns, and the free size is down by exactly those |
| `BootTables.ReturnSucceeds` | kernel/src/arch/memory.rs:36-39 | every page held meets all demands of `free_pages`, given one spare slot per grant |
| `BootTables.Serve` | kernel/src/arch/memory.rs:30-50 | the manager object on any sequence of requests: its answers are such a run, no return is refused, and with nothing held the free list is exactly as before |
| `BootTables.AddressCount` | kernel/src/arch/memory.rs:67-76 | as many pages as frames |
| `BootTables.TranscriptHolds` | kernel/src/arch/memory.rs:30-50 | frames held and pages held correspond along every log |
| `BootTables.ManagerMeetsContract` | kernel/src/arch/memory.rs:208-223 | with the source tables outside the free list, the manager never grants a frame that is held or is one of them, in any run |
| `BootTables.ManagerCooperates` | kernel/src/arch/memory.rs:208-223 | with more usable pages free than the limit, it never refuses and grants only usable frames |
| `BootTables.CloneAccounting` | kernel/src/arch/memory.rs:208-223 | a clone served by any run of the manager: a success lowers the free size by `table_frames` pages, a failure restores the exact list, every grant is allowed, and with enough pages it succeeds if and only if the tree is legal and within the limit |
| `BootTables.CloneServed` | kernel/src/arch/memory.rs:208-223 | `clone_root` run as it is: what it promises, and the same books with every manager that served it |
| `UserAccess.UserPageAccessible` | kernel/src/arch/memory.rs:353-397 | the loop answers the all-levels PRESENT, USER and WRITABLE question |
| `UserAccess.GrantsBits` | kernel/src/arch/memory.rs:379-384 | which bits of an entry an access needs |
| `UserAccess.PermitsByWalk` | kernel/src/arch/memory.rs:353-397 | on a legal tree the answer is that of the walk to the leaf: every entry met grants the access |
| `UserAccess.SamePagePermits` | kernel/src/arch/memory.rs:333-350 | one answer holds for the whole page |
| `UserAccess.RangeByPages` | kernel/src/arch/memory.rs:333-350 | asking once per page is the same as asking for every byte |
| `UserAccess.PagesAccessible` | kernel/src/arch/memory.rs:333-350 | the loop over pages, from the first page of the range to its last |
| `UserAccess.UserRangeAccessible` | kernel/src/arch/memory.rs:315-351 | true for a non-empty range if and only if every byte is below the limit and passes the walk |
| `UserAccess.ClonePermits` | crates/kernel-core/src/page_tables.rs:79-102 | a copied tree gives the same answer for every address |
| `Ranges.CanonicalUnique` | crates/kernel-core/src/physical.rs:18-25 | a set of addresses has one sorted, separated list of maximal runs |
| `Ranges.SizeIsCardinality` | crates/kernel-core/src/physical.rs:61-71 | the recorded size is the number of addresses covered |
| `Ranges.CarveKeeps` | crates/kernel-core/src/physical.rs:113-131 | taking a block out of a region keeps the list canonical and removes exactly the block |
| `Ranges.FuseKeeps` | crates/kernel-core/src/physical.rs:167-178 | merging a block in keeps the list canonical and adds exactly the block |
| `Ranges.FitInIsLowest` | crates/kernel-core/src/physical.rs:101-111 | the aligned start in a region is the lowest one, and none is missed |
| `Ranges.BlockInOneRegion` | crates/kernel-core/src/physical.rs:216-220 | in a canonical list a block is covered if and only if one region holds it |
| `Ranges.InsertAt` | crates/kernel-core/src/physical.rs:222-232 | the shifting loop inserts one region |
| `Ranges.RemoveAt` | crates/kernel-core/src/physical.rs:234-242 | the shifting loop removes one region and clears the last slot |
| `Ranges.CarveAt` | crates/kernel-core/src/physical.rs:113-131 | the four in-place cases are the one carving function |
| `Ranges.FuseAt` | crates/kernel-core/src/physical.rs:167-178 | the in-place merge cases are the one fusing function; refuses exactly if a slot is needed and none is left |
| `Ranges.FindSlot` | crates/kernel-core/src/physical.rs:155-158 | the first region not below the block |
| `Ranges.AppendAt` | crates/kernel-core/src/physical.rs:190-214 | appends or extends, and refuses exactly if the list would be too long |
| `PhysicalMemory.FirstFitIsLowest` | crates/kernel-core/src/physical.rs:85-138 | the first region that fits holds the lowest fit of all |
| `PhysicalMemory.NoneFits` | crates/kernel-core/src/physical.rs:85-138 | if no region fits, no aligned block is free |
| `PhysicalMemory.CarveWellKept` | crates/kernel-core/src/physical.rs:119-134 | allocating keeps every invariant and takes exactly the block off the size |
| `PhysicalMemory.FuseWellKept` | crates/kernel-core/src/physical.rs:167-187 | freeing keeps every invariant and never overflows the counters |
| `PhysicalMemory.AppendWellKept` | crates/kernel-core/src/physical.rs:190-214 | adding a run of pages at the end keeps every invariant |
| `PhysicalMemory.SingleFrame` | crates/kernel-core/src/physical.rs:81-83 | a request for one page never needs a split, so it never fails |
| `PhysicalMemory.PhysicalMemory.Empty` | crates/kernel-core/src/physical.rs:28-37 | starts with nothing managed and nothing free |
| `PhysicalMemory.PhysicalMemory.PushInitial` | crates/kernel-core/src/physical.rs:190-214 | adds a run of pages unless the table is full |
| `PhysicalMemory.PhysicalMemory.AllocatePages` | crates/kernel-core/src/physical.rs:85-138 | the lowest aligned block, None exactly if there is none, and an error only for a bad request or a full list; every error leaves the state as it was |
| `PhysicalMemory.PhysicalMemory.AllocateAt` | crates/kernel-core/src/physical.rs:101-138 | the same once the first fitting region is known |
| `PhysicalMemory.PhysicalMemory.Take` | crates/kernel-core/src/physical.rs:119-134 | the block and nothing else leaves the free list |
| `PhysicalMemory.PhysicalMemory.AllocateFrame` | crates/kernel-core/src/physical.rs:81-83 | the lowest free page, or None exactly if nothing is free; never an error |
| `PhysicalMemory.PhysicalMemory.FreePages` | crates/kernel-core/src/physical.rs:140-188 | succeeds if and only if the pages are managed, not free and there is room for them; every error leaves the state as it was |
| `PhysicalMemory.PhysicalMemory.Return` | crates/kernel-core/src/physical.rs:155-188 | the same once the range is known to be managed |
| `MemoryMaps.CandidateIsLowest` | crates/kernel-core/src/lib.rs:61-78 | the candidate of a region is its lowest page not yet handed out |
| `MemoryMaps.FrameAllocator.Allocate` | crates/kernel-core/src/lib.rs:61-78 | the lowest page left, and None exactly if none is left |
| `MemoryMaps.NewBump` | crates/kernel-core/src/lib.rs:43-59 | accepts exactly the sorted maps, and starts with all their whole pages |
| `MemoryMaps.InwardIsInside` | crates/kernel-core/src/physical.rs:48-53 | rounding inward keeps exactly the whole pages, never page zero |
| `MemoryMaps.NormalisedIsUsable` | crates/kernel-core/src/physical.rs:28-59 | the initial list is the canonical form of exactly the whole pages of the map |
| `MemoryMaps.StartedNext` | crates/kernel-core/src/physical.rs:38-56 | what the checks on one more region decide |
| `MemoryMaps.NewPhysicalMemory` | crates/kernel-core/src/physical.rs:28-59 | accepts a map if and only if it is sorted, does not overflow and fits; each refusal has its reason |
| `MemoryMaps.AgreeNext` | crates/kernel-core/src/lib.rs:61-78 | in step, both allocators give the same frame and stay in step |
| `MemoryMaps.Lockstep` | crates/kernel-core/src/lib.rs:43-78 | any number of calls of both gives the same sequence, including where None begins |
| `Heap.ScanMissesNone` | kernel/src/mm/heap.rs:59-71 | a scan that ends or stops has missed no fit |
| `Heap.FirstTakeIsLowest` | kernel/src/mm/heap.rs:59-91 | the first range taken holds the lowest fit |
| `Heap.TakesFirst` | kernel/src/mm/heap.rs:59-91 | with the list full or not, the first range taken is the first that can be: at its lowest fit, and when full only at an end of a range |
| `Heap.TakesNone` | kernel/src/mm/heap.rs:59-95 | a scan that takes nothing has passed over nothing that could be taken, full or not |
| `Heap.TakeTiles` | kernel/src/mm/heap.rs:73-91 | allocating keeps live blocks and free ranges an exact tiling |
| `Heap.ReturnTiles` | kernel/src/mm/heap.rs:97-149 | so does freeing a live block |
| `Heap.ReturnTilesIff` | kernel/src/mm/heap.rs:97-149 | freeing bytes that are not free keeps the tiling if and only if they are a live block |
| `Heap.FreeableIff` | kernel/src/mm/heap.rs:98-141 | what the assertions let through: blocks in the heap that overlap no free range, with room for their range |
| `Heap.ReturnFacts` | kernel/src/mm/heap.rs:141-149 | the free size never outgrows the heap, so the last assertion never fires |
| `Heap.EmptyHeapIsWhole` | kernel/src/mm/heap.rs:97-149 | with nothing live the single initial range is back |
| `Heap.HeapState.constructor` | kernel/src/mm/heap.rs:36-49 | one free range, nothing live |
| `Heap.HeapState.Allocate` | kernel/src/mm/heap.rs:51-95 | an aligned free block becomes live: the first that can be carved with the room left in the list, the lowest one of all unless it is full; None if and only if there is none, and then nothing has changed |
| `Heap.HeapState.TakeAt` | kernel/src/mm/heap.rs:73-91 | carves the block in place and updates the size |
| `Heap.HeapState.Deallocate` | kernel/src/mm/heap.rs:97-149 | for any block: accepted or a panic, exactly as stated; an accepted block is free and nothing else changes; the tiling is kept if and only if the block was live; freeing the last live block restores the initial range in any order |
| `LittleEndian.RoundTrip` | crates/kernel-core/src/genericfs.rs:484-498 | a number that fits its field is read back as written |
| `LittleEndian.DecodeInjective` | crates/kernel-core/src/genericfs.rs:484-498 | every byte string is the encoding of the number it reads as |
| `LittleEndian.DecodeIsSum` | crates/kernel-core/src/genericfs.rs:484-498 | a number is read as the sum of its bytes, the first counting least |
| `LittleEndian.EncodedByte` | crates/kernel-core/src/genericfs.rs:484-498 | byte k of a number written is its k-th lowest |
| `GenericFsDisk.InodeRoundTrip` | crates/kernel-core/src/genericfs.rs:448-475 | decoding an encoded inode gives it back |
| `GenericFsDisk.DecodedIsEncodable` | crates/kernel-core/src/genericfs.rs:448-464 | what decodes fits the fields of the record |
| `GenericFsDisk.EncodedFields` | crates/kernel-core/src/genericfs.rs:466-475 | each field at its byte position in the record |
| `GenericFsDisk.SlotPosition` | crates/kernel-core/src/genericfs.rs:124-145 | records stand one behind the other from byte 512 on |
| `GenericFsDisk.StoreLookup` | crates/kernel-core/src/genericfs.rs:124-145 | writing an inode changes that inode and no other |
| `GenericFsTree.FindChildFinds` | crates/kernel-core/src/genericfs.rs:147-155 | the first inode of that parent and name, or none |
| `GenericFsTree.FreeInodeFinds` | crates/kernel-core/src/genericfs.rs:157-164 | the first unused inode, or none |
| `Unicode.Utf8Iff` | crates/kernel-core/src/genericfs.rs:58-64 | the byte patterns taken for names are exactly the UTF-8 encodings of sequences of Unicode scalar values |
| `GenericFsTree.CreateKeepsTree` | crates/kernel-core/src/genericfs.rs:166-183 | live inodes stay a tree under inode 1 with unique valid names, even when an inode is reused |
| `GenericFsTree.RemoveKeepsTree` | crates/kernel-core/src/genericfs.rs:406-418 | so they do after a removal |
| `GenericFsExtents.UsedRuns` | crates/kernel-core/src/genericfs.rs:190-204 | the collected extents are exactly those of the other files |
| `GenericFsExtents.SortSorts` | crates/kernel-core/src/genericfs.rs:205 | the extents come out by start |
| `GenericFsExtents.SortKeeps` | crates/kernel-core/src/genericfs.rs:205 | and none is lost or added |
| `GenericFsExtents.SectorsForLeast` | crates/kernel-core/src/genericfs.rs:421-427 | the least number of sectors that hold so many bytes |
| `GenericFsExtents.Scan` | crates/kernel-core/src/genericfs.rs:207-213 | the candidate clears all extents and is the lowest start that does |
| `GenericFsExtents.ClearIsFree` | crates/kernel-core/src/genericfs.rs:185-217 | clearing the list is the same as being free in the table |
| `GenericFsExtents.FindExtent` | crates/kernel-core/src/genericfs.rs:185-217 | the lowest fitting start, and NoSpace exactly if no run avoids the other files |
| `GenericFsVolume.StoreInodes` | crates/kernel-core/src/genericfs.rs:135-145 | an inode write updates one entry of the table and no data sector |
| `GenericFsVolume.RamWriteAt` | crates/kernel-core/src/vfs.rs:514-528 | what the memory filesystem's write does, byte by byte |
| `GenericFsVolume.PatchOverlays` | crates/kernel-core/src/genericfs.rs:370-385 | one read-modify-write changes exactly the bytes of its chunk |
| `GenericFsVolume.GrownByte` | crates/kernel-core/src/genericfs.rs:219-249 | after growth a byte is the old one if its old sector is outside the new extent, and zero otherwise |
| `GenericFsVolume.WriteContents` | crates/kernel-core/src/genericfs.rs:352-390 | growing, clearing the gap and overlaying is the memory filesystem's write on the surviving bytes |
| `GenericFsVolume.TruncateContents` | crates/kernel-core/src/genericfs.rs:391-404 | the same for its truncate, stale bytes reading as zero |
| `GenericFsVolume.AllSurvive` | crates/kernel-core/src/genericfs.rs:219-249 | without growth, or with extents apart, every byte survives |
| `GenericFsVolume.OverlayAgreesIff` | crates/kernel-core/src/genericfs.rs:352-390 | for any record left behind: overlaying the surviving bytes is overlaying the old ones if and only if every byte that is lost and not overlaid was zero |
| `GenericFsVolume.ResizeAgreesIff` | crates/kernel-core/src/genericfs.rs:391-404 | the same for cutting or extending |
| `GenericFsVolume.GrowInPlaceLosesAll` | crates/kernel-core/src/genericfs.rs:229-244 | a file whose lowest fit starts where it stands keeps nothing |
| `GenericFsVolume.ResizeKeepsTree` | crates/kernel-core/src/genericfs.rs:387-388 | a new length and extent leave the tree alone |
| `GenericFsVolume.ReplaceKeepsExtents` | crates/kernel-core/src/genericfs.rs:219-249 | a private extent keeps all extents disjoint, in bounds and covering their lengths |
| `GenericFsVolume.PrivateShows` | crates/kernel-core/src/genericfs.rs:219-272 | while only private sectors change, the volume shows its old table and every other file's bytes |
| `GenericFsVolume.StoreShows` | crates/kernel-core/src/genericfs.rs:135-145 | the inode write shows the new table and every other file's bytes |
| `GenericFsFormat.WellFormedMounts` | crates/kernel-core/src/genericfs.rs:71-104 | every well-formed volume mounts as it is |
| `GenericFsFormat.SuperblockIsGood` | crates/kernel-core/src/genericfs.rs:106-122 | the superblock written is one that mount accepts |
| `GenericFsFormat.GoodSuperblockIff` | crates/kernel-core/src/genericfs.rs:79-91 | what mount insists on is what format writes, byte for byte |
| `GenericFsFormat.MountsIff` | crates/kernel-core/src/genericfs.rs:71-104 | a volume is taken as it is if and only if it starts as a formatted one and its root is a directory; it is formatted if and only if there is no magic and that was asked for; NoSpace is for 18 sectors or fewer |
| `GenericFsFormat.RootCompletes` | crates/kernel-core/src/genericfs.rs:106-122 | the last write of format makes a well-formed volume with only a root |
| `GenericFsFormat.RootlessIsRefused` | crates/kernel-core/src/genericfs.rs:85-97 | without that write the volume is refused, with either flag |
| `GenericFsFormat.FormatEnds` | crates/kernel-core/src/genericfs.rs:106-122 | every crash state of format: formatted again, refused at exactly one point, or done |
| `GenericFs.GenericFs.Mount` | crates/kernel-core/src/genericfs.rs:71-104 | on any device: the exact verdict, and no write unless it formats |
| `GenericFs.GenericFs.Format` | crates/kernel-core/src/genericfs.rs:106-122 | a root directory over the data sectors as they were |
| `GenericFs.GenericFs.WriteInode` | crates/kernel-core/src/genericfs.rs:135-145 | one sector write, of one patched table sector |
| `GenericFs.GenericFs.Overlay` | crates/kernel-core/src/genericfs.rs:369-385 | the loop puts the data at its position and touches nothing else |
| `GenericFs.GenericFs.EnsureCapacity` | crates/kernel-core/src/genericfs.rs:219-249 | the file keeps its extent or moves to the lowest fit; NoSpace exactly if there is none, before any write |
| `GenericFs.GenericFs.Relocate` | crates/kernel-core/src/genericfs.rs:229-244 | zeroing then copying leaves each sector as the clobbering rule says |
| `GenericFs.GenericFs.ZeroGap` | crates/kernel-core/src/genericfs.rs:251-272 | zeroes exactly the gap |
| `GenericFs.GenericFs.Write` | crates/kernel-core/src/genericfs.rs:352-390 | every error case, lengths that wrap around included; for a file and an end that does not wrap, the contents, or NoSpace with no run large enough and nothing changed; all else unchanged; every crash state well formed with the old or the new table, and with the old bytes of the file too if its extents are apart |
| `GenericFs.GenericFs.Truncate` | crates/kernel-core/src/genericfs.rs:391-404 | the same for truncate |
| `GenericFs.WrapsAroundIff` | crates/kernel-core/src/genericfs.rs:421-427 | the lengths that wrap are exactly those for which 64-bit arithmetic gets the number of sectors wrong, the last 511 |
| `GenericFs.WriteIsServed` | crates/kernel-core/src/genericfs.rs:352-390 | what the contract of write means for a file: contents, or no run of sectors |
| `GenericFs.TruncateIsServed` | crates/kernel-core/src/genericfs.rs:391-404 | the same for truncate |
| `GenericFs.GenericFs.Wipe` | crates/kernel-core/src/genericfs.rs:251-272 | `zero_range` with an end off the device clears every byte from the end of the file to the end of the device |
| `GenericFs.GenericFs.CreateEntry` | crates/kernel-core/src/genericfs.rs:166-183 | result and table of create in one inode write, safe at every crash |
| `GenericFs.GenericFs.RemoveEntry` | crates/kernel-core/src/genericfs.rs:406-418 | result and table of remove in one inode write, safe at every crash |
| `GenericFs.GenericFs.Read` | crates/kernel-core/src/genericfs.rs:324-350 | fills the buffer with the contents from the offset on and leaves the rest of it |
| `GenericFs.ScanForChild` | crates/kernel-core/src/genericfs.rs:147-155 | the loop finds the first match |
| `GenericFs.ScanForFree` | crates/kernel-core/src/genericfs.rs:157-164 | the loop finds the first unused inode |
| `GenericFs.ScanForChildren` | crates/kernel-core/src/genericfs.rs:409-416 | the loop finds a child if and only if there is one |
| `GenericFs.Finish` | crates/kernel-core/src/genericfs.rs:387-388 | the one inode write that ends an operation is crash safe |
| `GenericFs.OldBytesKept` | crates/kernel-core/src/genericfs.rs:219-249 | while a file moves to an extent apart from its old one, every crash state before the inode write shows its old bytes |
| `GenericFs.ShortFile` | crates/kernel-core/src/genericfs.rs:421-427 | no file or device is near the lengths that wrap around |
| `GenericFsAgreement.WriteAgreesIff` | crates/kernel-core/src/genericfs.rs:352-390 | a successful write agrees with the memory filesystem if and only if, on the volume before the call, every byte that lies where the file will grow to and is not overlaid is zero |
| `GenericFsAgreement.TruncateAgreesIff` | crates/kernel-core/src/genericfs.rs:391-404 | a successful truncate agrees if and only if every remaining byte in the way is zero |
| `GenericFsAgreement.SomeContentsAreLost` | crates/kernel-core/src/genericfs.rs:219-249 | wherever a byte is in the way, some well-formed volume with the same table has every such write lose it |
| `GenericFsAgreement.AppendLosesContents` | crates/kernel-core/src/genericfs.rs:219-249 | a volume on which appending one byte succeeds and zeroes the 512 before it |
| `GenericFsAgreement.ExtendLosesContents` | crates/kernel-core/src/genericfs.rs:391-404 | the same volume loses them to a truncate that extends the file |
| `GenericFsAgreement.IntactIsWellFormed` | crates/kernel-core/src/genericfs.rs:71-104 | a volume whose superblock, table and file contents are unharmed is well formed and has the same table |
| `GenericFsAgreement.WipeHarmlessIff` | crates/kernel-core/src/genericfs.rs:251-272 | a call that wraps around leaves the volume unharmed if and only if every byte behind the file that matters was zero already |
| `GenericFsAgreement.WipeErasesVolume` | crates/kernel-core/src/genericfs.rs:251-272 | on a file that never had an extent it erases the whole volume, and the next mount formats it |
| `Paths.NormalizePath` | crates/kernel-core/src/vfs.rs:263-289 | the loops compute the normal form, errors included |
| `Paths.PushComponents` | crates/kernel-core/src/vfs.rs:291-305 | the loop applies the pieces of a path one by one |
| `Paths.NormalizedIsCanonical` | crates/kernel-core/src/vfs.rs:263-289 | normal forms are canonical: valid names, no dots, bounded length |
| `Paths.NormalizedIsIdempotent` | crates/kernel-core/src/vfs.rs:263-289 | a canonical path is its own normal form, against any base |
| `Paths.RelativeIsJoined` | crates/kernel-core/src/vfs.rs:271-275 | a relative path is taken as if written behind its base, errors included |
| `Paths.NameDescends` | crates/kernel-core/src/vfs.rs:299-302 | a valid name leads one level down |
| `Paths.DotStays` | crates/kernel-core/src/vfs.rs:294 | one dot stays |
| `Paths.DotsAscend` | crates/kernel-core/src/vfs.rs:295-297 | two dots lead one level up, and stay at the root |
| `Paths.BadNameRefused` | crates/kernel-core/src/vfs.rs:299-302 | any other piece is too long, and refused for that |
| `Paths.PathsCompose` | crates/kernel-core/src/vfs.rs:263-305 | what is written behind an accepted path is taken from its normal form on; with the laws for single pieces this determines every normal form |
| `Paths.DotsUndo` | crates/kernel-core/src/vfs.rs:295-297 | a name and two dots behind a path cancel out |
| `Paths.RenderInjective` | crates/kernel-core/src/vfs.rs:277-283 | components and canonical paths determine each other |
| `Paths.NamedRenders` | crates/kernel-core/src/vfs.rs:263-289 | the components of a path that is accepted are valid names and spell its normal form |
| `Routing.CoversIff` | crates/kernel-core/src/vfs.rs:236-239 | the byte test is "component by component, a prefix" |
| `Routing.BetterIff` | crates/kernel-core/src/vfs.rs:240-243 | comparing byte lengths orders matching mounts by depth |
| `Routing.RouteUnique` | crates/kernel-core/src/vfs.rs:231-261 | the longest matching mount is unique and independent of the order of mounting |
| `Routing.Route` | crates/kernel-core/src/vfs.rs:231-261 | the longest component-wise prefix; rejoining it with the rest gives back the path |
| `DirTree.WalkUnique` | crates/kernel-core/src/vfs.rs:321-331 | no two paths lead to the same inode |
| `DirTree.DropsWalk` | crates/kernel-core/src/vfs.rs:539-562 | removing an entry moves nothing but what it led to |
| `DirTree.AddsWalk` | crates/kernel-core/src/vfs.rs:401-433 | adding an entry moves nothing |
| `MountRuns.StartsAnchored` | crates/kernel-core/src/vfs.rs:115-122 | a new VFS meets the invariant of the runs |
| `MountRuns.RemovalMisses` | crates/kernel-core/src/vfs.rs:186-192 | a removal routed to the filesystem below a mount point never names the mount point |
| `MountRuns.StepKeeps` | crates/kernel-core/src/vfs.rs:124-192 | every operation leaves every mount point in place |
| `MountRuns.MountPointsPersist` | crates/kernel-core/src/vfs.rs:124-137 | once mounted, in every later state of every run the same directory is at the mount point, something at every ancestor, and the path routes to what was mounted |
| `RamFs.CreateAdds` | crates/kernel-core/src/vfs.rs:401-433 | creating adds one entry to the tree and keeps its invariants |
| `RamFs.RemoveDrops` | crates/kernel-core/src/vfs.rs:539-562 | removing drops one entry and its childless node |
| `RamFs.DataKeepsView` | crates/kernel-core/src/vfs.rs:514-537 | writing data leaves the tree alone |
| `RamFs.RamFs.constructor` | crates/kernel-core/src/vfs.rs:384-391 | a root directory and nothing else |
| `RamFs.RamFs.Lookup` | crates/kernel-core/src/vfs.rs:463-474 | the entry, or the exact error |
| `RamFs.RamFs.CreateNode` | crates/kernel-core/src/vfs.rs:401-433 | one new empty node under the name and nothing else, or the exact error and no change |
| `RamFs.RamFs.Remove` | crates/kernel-core/src/vfs.rs:539-562 | one node and its entry gone and nothing else, or the exact error and no change |
| `RamFs.RamFs.Read` | crates/kernel-core/src/vfs.rs:500-512 | the bytes of the file from the offset on, as many as there are and fit |
| `RamFs.RamFs.Write` | crates/kernel-core/src/vfs.rs:514-528 | zero-extended and overlaid data of one file, or the exact error |
| `RamFs.RamFs.Truncate` | crates/kernel-core/src/vfs.rs:530-537 | cut or zero-extended data of one file, or the exact error |
| `PathTree.DataBecomes` | crates/kernel-core/src/vfs.rs:514-537 | new data shows at one path of the filesystem and at no other |
| `PathTree.AddsOnly` | crates/kernel-core/src/vfs.rs:401-433 | a new entry leads nowhere new but to itself |
| `PathTree.CreateBecomes` | crates/kernel-core/src/vfs.rs:401-433 | creating makes one path exist and leaves every other as it was |
| `PathTree.RemoveBecomes` | crates/kernel-core/src/vfs.rs:539-562 | removing makes one path vanish and leaves every other as it was |
| `PathTree.TreeBecomes` | crates/kernel-core/src/vfs.rs:231-261 | a change at one path of one filesystem is a change at one path of the whole mounted tree |
| `PathTree.TreeMounts` | crates/kernel-core/src/vfs.rs:124-137 | a mount hides what was at and below its path, up to deeper mounts, and changes no other path |
| `PathTree.TreeByWalk` | crates/kernel-core/src/vfs.rs:152-158 | resolving in the filesystem a path is routed to tells what the mounted tree holds there |
| `PathTree.RootIsDirectory` | crates/kernel-core/src/vfs.rs:115-122 | the root is always a directory |
| `GenericFsDirs.TableTreeLike` | crates/kernel-core/src/genericfs.rs:284-314 | a GenericFS table is a tree in the VFS's sense |
| `GenericFsDirs.NamesAgree` | crates/kernel-core/src/genericfs.rs:438-446 | up to 63 bytes the names refused, and the reasons, are those of the VFS; longer ones are refused |
| `GenericFsDirs.CreateAdds` | crates/kernel-core/src/genericfs.rs:166-183 | its create adds one entry |
| `GenericFsDirs.RemoveDrops` | crates/kernel-core/src/genericfs.rs:406-418 | its remove drops one entry |
| `GenericFsDirs.CreateDecided` | crates/kernel-core/src/genericfs.rs:166-183 | each outcome of create on the tree: done if and only if the name is free in a directory and an inode is spare; each error likewise |
| `GenericFsDirs.RemoveDecided` | crates/kernel-core/src/genericfs.rs:406-418 | remove succeeds if and only if the entry exists and has no entries; each error likewise |
| `GenericFsDirs.AccessDecided` | crates/kernel-core/src/genericfs.rs:324-337 | file operations are possible on exactly the entries that are no directories; each error likewise |
| `Vfs.ResolveInode` | crates/kernel-core/src/vfs.rs:321-331 | the loop finds what the path leads to; it fails exactly if it leads nowhere, with NotDirectory at a file on the way and NotFound otherwise |
| `Vfs.MissesInDirectory` | crates/kernel-core/src/vfs.rs:321-331 | where the directory that should hold an entry exists, the error is NotFound |
| `Vfs.ResolveParent` | crates/kernel-core/src/vfs.rs:333-351 | the directory that holds the last name, or the reason there is none |
| `Vfs.SplitLast` | crates/kernel-core/src/vfs.rs:338 | splits at the last slash |
| `Vfs.CreatableIsVacant` | crates/kernel-core/src/vfs.rs:333-351 | what one filesystem and its mount point decide is what the whole tree says: nothing there, and a directory above |
| `Vfs.WalkDecides` | crates/kernel-core/src/vfs.rs:152-158 | the walk in one filesystem decides about the whole path, errors included |
| `Vfs.Vfs.constructor` | crates/kernel-core/src/vfs.rs:115-122 | the root filesystem at "/" |
| `Vfs.Vfs.Remove` | crates/kernel-core/src/vfs.rs:186-192 | succeeds exactly on childless entries that are no mount points; takes that path out of the mounted tree and nothing else; a step of the runs above |
| `Vfs.Vfs.Create` | crates/kernel-core/src/vfs.rs:168-184 | succeeds exactly where nothing is but a directory to hold it, inode numbers permitting; puts one path into the mounted tree; a step of the runs above |
| `Vfs.Vfs.MountAt` | crates/kernel-core/src/vfs.rs:124-137 | succeeds exactly on directories that are not mounted on; the mounted tree afterwards, path by path; a step of the runs above |
| `Vfs.Vfs.LocateParent` | crates/kernel-core/src/vfs.rs:168-192 | routing and `resolve_parent`: the directory for the last name, or none |
| `Vfs.Vfs.Resolve` | crates/kernel-core/src/vfs.rs:152-229 | routing and `resolve_inode`: where the path leads, or why nowhere |
| `Vfs.Vfs.Metadata` | crates/kernel-core/src/vfs.rs:152-158 | kind and length of what the mounted tree holds at the path |
| `Vfs.Vfs.Read` | crates/kernel-core/src/vfs.rs:194-200 | the bytes of the file at the path |
| `Vfs.Vfs.ReadAll` | crates/kernel-core/src/vfs.rs:202-213 | exactly the data the mounted tree holds at the path |
| `Vfs.Vfs.Write` | crates/kernel-core/src/vfs.rs:215-221 | changes one file of the mounted tree, zero-extended and overlaid, or nothing |
| `Vfs.Vfs.Truncate` | crates/kernel-core/src/vfs.rs:223-229 | cuts or zero-extends one file of the mounted tree, or changes nothing |
| `X128Machine.BitwiseLaws` | tools/x128.py:138-140 | the sums that tie AND, OR and XOR to addition |
| `X128Machine.LogicBits` | tools/x128.py:138-140 | after AND, OR or XOR each bit of the result is the conjunction, disjunction or difference of the operand bits |
| `X128Machine.ArithmeticWraps` | tools/x128.py:136-137 | sums and differences are exact up to one carry or borrow out of 128 bits |
| `X128Machine.OneRegister` | tools/x128.py:134-140 | a computing instruction changes one register and moves on |
| `X128Machine.StoredIsLoaded` | tools/x128.py:145-149 | a byte stored is what is loaded from there, and from nowhere else |
| `X128Machine.CompareThenJump` | tools/x128.py:141-144 | a comparison and a conditional jump branch exactly on equality |
| `X128Machine.InsnLayout` | tools/x128.py:116 | operation, three registers, and the value with its low byte first |
| `X128Machine.StepSound` | tools/x128.py:121-156 | every step keeps registers within 128 bits |
| `X128Machine.BootState` | tools/x128.py:124-125 | the state a run starts from |
| `X128Machine.RunDecided` | tools/x128.py:126-156 | a run ends as the machine does within the limit, or at the limit if it has not stopped |
| `X128Machine.RunsDecided` | tools/x128.py:122-126 | too big is more than 65536 bytes, and the limit is 100000 steps |
| `X128Machine.Perform` | tools/x128.py:133-155 | one instruction, registers and memory updated in place |
| `X128Machine.Run` | tools/x128.py:121-156 | the loop runs the machine for at most 100000 steps to its exit or first fault |
| `X128Assembler.Expand` | tools/x128.py:48-65 | two statements per byte of a `puts`; the first malformed one is reported |
| `X128Assembler.DecimalReads` | tools/x128.py:61-62 | the bytes of a `puts` are spelled in decimal, without leading zeros |
| `X128Assembler.EntriesCarryLines` | tools/x128.py:50-65 | every statement carries the number of its source line, in order |
| `X128Assembler.Collect` | tools/x128.py:69-79 | labels resolve to the address of the statement behind them; the first redefinition is reported |
| `X128Assembler.Emit` | tools/x128.py:81-119 | 20 bytes per statement, in order; the first bad statement is reported |
| `X128Assembler.Assemble` | tools/x128.py:67-119 | an image of the program, or the first error of the first pass that has one |
| `X128Assembler.ResolvedUnique` | tools/x128.py:69-79 | a program resolves in one way |
| `X128Assembler.ImageUnique` | tools/x128.py:67-119 | a program has one image, and none if anything is wrong with it |
| `X128Symbolic.FindResolves` | tools/x128.py:69-79 | a label stands for the address of its statement |
| `X128Symbolic.TranslateInterprets` | tools/x128.py:82-116 | exactly the statements that mean something are translated, and to what they mean |
| `X128Simulation.FetchTranslated` | tools/x128.py:116-132 | the emulator fetches what the assembler encoded |
| `X128Simulation.ExecuteMatches` | tools/x128.py:133-155 | executing an instruction does what its statement does |
| `X128Simulation.StepSimulates` | tools/x128.py:125-155 | one emulator step per statement, in registers, flag, memory, output, exit and faults |
| `X128Simulation.RunSimulates` | tools/x128.py:121-156 | whole runs agree for every number of steps |
| `X128Simulation.AssemblyPreservesMeaning` | tools/x128.py:67-156 | whatever the labelled program computes, the image computes, unless control leaves it or a store hits it |
| `X128Simulation.PutsStands` | tools/x128.py:48-65 | where the expansion of a `puts` stands in the program |
| `X128Simulation.PutsRuns` | tools/x128.py:61-62 | what running it does, whatever the labels are called |
| `X128Simulation.PutsPrintsIff` | tools/x128.py:32-62 | it emits exactly its bytes if and only if no label captures them, and then changes only output, r1 and pc |
| `X128Simulation.CapturedByLabel` | tools/x128.py:32-62 | a program whose `puts` is captured: its labels, its image, and a run of that image that prints the wrong byte |
| `Scheduler.ScanFinds` | kernel/src/task.rs:121-133 | the scan finds the nearest ready task round the table, or there is none |
| `Scheduler.ParkTasks` | kernel/src/task.rs:213-232 | what a scheduling call does to every task |
| `Scheduler.DueAreReady` | kernel/src/task.rs:111-119 | every task that is ready or due and not dispatched is ready after the call, and no other task changes |
| `Scheduler.NearestRuns` | kernel/src/task.rs:121-133 | control passes on if and only if another task is ready or due, and then to the nearest of those |
| `Scheduler.CallerParks` | kernel/src/task.rs:169-423 | what the caller becomes, what a spawn adds, and when a switch is counted |
| `Scheduler.StepTasks` | kernel/src/task.rs:169-302 | what any call does: soundness kept, exited tasks stay, sleepers wait, ready tasks stay ready until dispatched |
| `Scheduler.StuckIff` | kernel/src/task.rs:389-408 | only an exit can be stuck, and exactly if no other task is ready or due |
| `Scheduler.RunSound` | kernel/src/task.rs:143-423 | in every state of every run one task is Running, and it is `current` |
| `Scheduler.ExitedStay` | kernel/src/task.rs:389-423 | an exited task never runs again |
| `Scheduler.SleepersWait` | kernel/src/task.rs:252-302 | no sleeper runs before a call has read its wake tick |
| `Scheduler.ExitFindsSuccessor` | kernel/src/task.rs:389-408 | exit finds a successor if task 0 only spawns and yields |
| `Scheduler.WaitingIsPaidFor` | kernel/src/task.rs:121-133 | calls made while a ready task waits are bounded by its distance and the spawns |
| `Scheduler.BoundedWaiting` | kernel/src/task.rs:121-133 | a ready task is dispatched within its cyclic distance plus one per spawn |
| `Scheduler.SleepersAreServed` | kernel/src/task.rs:111-133 | a sleeper whose wake tick a call reads is dispatched within its cyclic distance then, plus one per spawn |
| `Scheduler.Scheduler.constructor` | kernel/src/task.rs:143-159 | the boot task alone, running |
| `Scheduler.Scheduler.WakeSleepers` | kernel/src/task.rs:111-119 | the loop readies exactly the sleepers that are due |
| `Scheduler.Scheduler.NextReady` | kernel/src/task.rs:121-133 | the loop is the scan |
| `Scheduler.Scheduler.SpawnTask` | kernel/src/task.rs:169-191 | a new ready task with a new number, unless numbers run out |
| `Scheduler.Scheduler.YieldNow` | kernel/src/task.rs:205-250 | control passes to the nearest ready task, or stays |
| `Scheduler.Scheduler.SleepTicks` | kernel/src/task.rs:252-302 | zero ticks yield; otherwise the task sleeps to the saturated sum |
| `Scheduler.Scheduler.SleepUntil` | kernel/src/task.rs:264-302 | the task sleeps, or keeps running and waits by itself if no one else can |
| `Scheduler.Scheduler.ExitCurrent` | kernel/src/task.rs:389-423 | control passes on for good, or the call is stuck |
| `Elf.Parse` | crates/kernel-core/src/elf.rs:40-129 | the load segments of the file in order, each fit to be loaded, or the first thing wrong; no header read is out of bounds |
| `Elf.ReadSegments` | crates/kernel-core/src/elf.rs:83-122 | the loop over program headers |
| `Elf.ReadSegment` | crates/kernel-core/src/elf.rs:90-121 | one load header: exact error or exact segment |
| `Elf.SegmentsAreHeaders` | crates/kernel-core/src/elf.rs:83-122 | segments and load headers correspond |
| `Elf.SegmentsInOrder` | crates/kernel-core/src/elf.rs:83-122 | each load header has its segment at the place of its turn |
| `Elf.SegmentsAreLoadable` | crates/kernel-core/src/elf.rs:90-121 | an accepted segment has its bytes in the file, no more of them than memory, no address overflow, and a consistent power-of-two alignment |
| `ElfLayout.LayoutIsRead` | crates/kernel-core/src/elf.rs:40-129 | for a file laid out as the ELF64 format says, field by field: accepted if and only if it is an x86-64 executable, every program header field is read from its place, and each segment is refused exactly for its size, alignment or extent |
| `ElfLayout.HeaderRead` | crates/kernel-core/src/elf.rs:40-82 | the header fields, each from its place |
| `ElfLayout.ProgramRead` | crates/kernel-core/src/elf.rs:90-96 | the program header fields, each from its place |
| `UserImage.UserSpace.MapUserPage` | kernel/src/arch/memory.rs:243-313 | a page is mapped once, zero-filled behind its data; a failure maps nothing |
| `UserImage.UserSpace.FillPage` | kernel/src/process.rs:375-386 | the file bytes that fall into the page, and zeros |
| `UserImage.UserSpace.LoadSegment` | kernel/src/process.rs:351-396 | all pages of the segment, or an error with its cause |
| `UserImage.UserSpace.LoadImage` | kernel/src/process.rs:343-399 | every segment present, no page shared, no other page new, old pages untouched; every error has its cause |
| `UserImage.LoadedFile` | kernel/src/process.rs:365-396 | each address of a load header holds its file byte below the file size, and zero up to the memory size and to the ends of its pages |
| `UserImage.LoadedPermissions` | crates/kernel-core/src/elf.rs:117-119 | the pages of a load header have the permissions of its segment |
| `UserImage.LoadedLayout` | kernel/src/process.rs:365-396 | from the file format to memory: at every address of a load header its file byte or zero, in a page that is writable and executable as its W and X flags say |
| `UserImage.FaultIff` | kernel/src/process.rs:351-364 | a segment is ruled out if and only if it leaves the user half |
| `UserImage.SpansIff` | kernel/src/process.rs:365-374 | the pages mapped for a segment are those that have an address in common with it |
| `Initramfs.AppendRecord` | kernel/build.rs:155-163 | one record in its encoding |
| `Initramfs.ReadsRecord` | kernel/src/initramfs.rs:13-48 | a record is read back where it was written |
| `Initramfs.FoundIff` | kernel/src/initramfs.rs:13-66 | the reader takes a record if and only if its bytes are what the writer can have written |
| `Initramfs.ArchiveRoundTrip` | kernel/src/initramfs.rs:6-68 | any records written are read back in order |
| `Initramfs.ItemAt` | kernel/src/initramfs.rs:13-66 | each record takes the reader strictly further, within the archive |
| `Unpack.LastRecordWins` | kernel/src/initramfs.rs:30-49 | for repeated paths the last record is what is left |
| `Unpack.FilesCounted` | kernel/src/initramfs.rs:10-67 | the number returned is that of the file records |
| `Unpack.Prepare` | kernel/src/initramfs.rs:37-62 | room for a record: made exactly where something of its kind is, or nothing but a directory to hold it; otherwise nothing changes |
| `Unpack.Install` | kernel/src/initramfs.rs:29-63 | a record is installed exactly where it fits, inode numbers permitting, and is then all that has changed; otherwise nothing has |
| `Unpack.InstallsNext` | kernel/src/initramfs.rs:13-66 | one more record that fits |
| `Unpack.UnpackArchive` | kernel/src/initramfs.rs:6-68 | ends on every byte string; installs the records in order up to the first that does not fit; succeeds exactly if all fit and the archive ends as it should, inode numbers permitting; the mounted tree is then the old one with the records applied |
| `HostDirectory.Portable` | kernel/build.rs:139-142 | backslashes become slashes, and other paths stay as they are |
| `HostDirectory.RecordNames` | kernel/build.rs:137-151 | the record of a path names that path, unless it is too long |
| `HostDirectory.InstallsConcat` | kernel/src/initramfs.rs:13-66 | archives can be installed piece by piece |
| `HostDirectory.LaidLast` | kernel/build.rs:134-152 | what one more entry of a directory stands for, path by path |
| `HostDirectory.DirectoryInstalls` | kernel/build.rs:130-153 | the records of a directory can all be installed if and only if no path is too long and none meets an entry of the other kind; what they leave is the directory laid over the tree |
| `HostDirectory.AppendDirectory` | kernel/build.rs:130-153 | the recursive writer appends exactly the records of the directory, for listings in any order |
| `HostDirectory.BuildInitramfs` | kernel/build.rs:107-128 | the archive of the directory and the programs |
| `HostDirectory.DirectoryCarriedOver` | kernel/build.rs:107-153 | any outcome of unpacking that archive: a success leaves the directory laid over the old tree with the programs on top, and only the stated conflicts or inode numbers can prevent it |
| `HostDirectory.CarryOver` | kernel/src/vfs.rs:11-21 | writing the archive and unpacking it, end to end |

## Left out

- GenericFs.GenericFs.Write: does not model volumes that are mounted but not well formed, device errors, or devices of 2^32 sectors and more.
- GenericFs.GenericFs.Truncate: the same.
- GenericFs.GenericFs.CreateEntry: the same.
- GenericFs.GenericFs.RemoveEntry: the same.
- GenericFs.GenericFs.Read: the same.
- GenericFs.GenericFs.EnsureCapacity: the same.
- GenericFs.GenericFs.Format: does not model device errors.
- PageTables.CloneRoot: takes every table that the source tree refers to by a usable address to be initialised memory.
- BootTables.Serve: is given one spare slot of the free list per page asked for; without it the manager can refuse a return.
- BootTables.CloneServed: the frame memory of the clone and the manager are tied by their answers, not by one object.
- UserAccess.UserPageAccessible: a table outside the modelled memory reads as a refusal; overflow of the direct-map address is not modelled.
- Heap.HeapState.constructor: the calls the source panics on, a second `init` or one that overflows, are not modelled.
- Heap.HeapState.Allocate: allocation before `init` is not modelled.
- Heap.HeapState.Deallocate: deallocation before `init` is not modelled.
- Vfs.Vfs.MountAt: filesystems mounted through the object are memory filesystems, each owned by one mount; runs with any tree are in MountRuns.
- Unpack.UnpackArchive: the filesystems below are memory filesystems, as they are when the kernel unpacks.
- HostDirectory.BuildInitramfs: is given paths and files whose lengths fit their fields, where the build script stops; what is neither file nor directory is not in the listing.
- HostDirectory.DirectoryInstalls: names without backslashes; the build script turns a backslash into a slash, and the record then names another path.
- X128Assembler.Assemble: starts from tokenised lines; text, literals and UTF-8 decoding are not modelled.
- X128Simulation.AssemblyPreservesMeaning: says nothing once control leaves the program or a store overwrites it, where the emulator goes on.
- UserImage.UserSpace.MapUserPage: frames, page-table entries and the mapper library are one failure that may happen at any time.
- Scheduler.Scheduler.SwitchTo: context switches, stacks and interrupt flags are not modelled.
- Directory listings: they would add easy members.
- Equality of error codes between the two filesystems: their lookups differ on purpose.
- Process tables and file descriptors: easy or input and output only.
- Device drivers, interrupt controllers, console, display, shell, fonts, input queues, build scripts and image builders.
