# GitOS: a verified model of its core

GitOS is a 32-bit kernel with FAT16 files, a block heap, two-level paging, an ELF loader, pipes, a
keyboard buffer, preemptive tasks, mounts and a frame buffer. This project models the code of those
parts and proves what they promise. `dafny verify dfyconfig.toml` checks it.

Code that changes things in place is modelled by classes and methods over arrays and fields, with
the loops of the source; each method is proved against a specification, and the properties of the
system are lemmas about the specifications.

| file | subject |
|---|---|
| `Disk.dfy` | byte stream over sectors |
| `FatChain.dfy`, `FatDriver.dfy`, `FatProperties.dfy` | cluster chains with their cache; the driver; what its reads mean and cost |
| `HeapTable.dfy`, `Heap.dfy`, `HeapRuns.dfy` | the byte table and the extents it encodes; the heap over it; runs of requests |
| `Ram.dfy`, `PageTables.dfy`, `Paging.dfy`, `KernelMemory.dfy` | physical memory; the flat map a directory encodes; mapping; the paging code over heap and memory |
| `LoadPlan.dfy`, `ProcessMemory.dfy` | what loading a program maps; the loader over paging and heap |
| `Pipe.dfy`, `Keyboard.dfy` | the two ring buffers |
| `Cpu.dfy`, `Scheduler.dfy` | the interrupt stub and task_return as instruction sequences; the task list and the timer |
| `CStrings.dfy`, `Paths.dfy`, `Mounts.dfy` | strings, path parts, mount resolution |
| `Framebuffer.dfy` | pixels and scrolling |
| `Words.dfy`, `Arithmetic.dfy`, `Status.dfy`, `Wrappers.dfy` | bitwise operators and their arithmetic; division; error numbers; Option |

## Where the code does less than it seems to

Each of these is kept as the code has it, with the exact condition under which the code is right.

- A FAT16 read that starts inside a cluster does not shorten its chunks, so it runs over the end of
  each cluster into the next one on the device. It is right, for every content, exactly when those
  are the next ones of the file (`FatProperties.ExactOnEveryDevice` for a block,
  `ExactSliceOnEveryDevice` for a call, `UnalignedReadGoesWrong`).
- A disk read that ends on a sector boundary fetches one sector more (`Disk.DiskStream.Read`).
- Without a long enough run of free blocks the heap search still answers with the free run at the end
  of the table, and malloc then marks a byte behind the table (`Heap.InsideExactlyIfAnswered`,
  `OneBlockForTwo`, `Heap.Heap.Malloc`). The comment of `heap_validate_alignment` promises 0 for an aligned pointer; it
  returns 1, and its caller relies on that.
- `kfree` computes the block from a signed 32-bit difference, so freeing an allocation 2 GB or more
  above the start of the heap does nothing (`Heap.Heap.AddressRoundTrip`,
  `HeapRuns.TableIsLiveExactlyIfNear`, `HeapRuns.FarFreeStaysTaken`,
  `KernelMemory.Kernel.DirectoryLifetime`).
- The same division rounds toward zero, so a pointer less than a block below the heap is taken for its
  first block (`Heap.Heap.BlockOfPointer`).
- `process_malloc` without memory returns null, after it has mapped the pages from address 0 on to
  themselves (`ProcessMemory.Process.MallocFlags`). The loader does not look at that: it copies the
  bss segment to address 0 and reports success (`ProcessMemory.Process.LoadWithoutBuffer`).
- For an exception with an error code the stub leaves the error code where the processor put it, but
  the frame has it at its other end: the handler sees every general register in the place of another
  one (`Cpu.Processor.EnterFaultStub`).
- The loader takes bss buffers from `kmalloc`, which does not clear them
  (`ProcessMemory.Process.BssIsWhatTheHeapHeld`), and maps a segment right exactly when its virtual
  address and its place agree modulo the page size (`LoadPlan.LoadedSegmentRight`).
- A single pipe write longer than twice the ring less the write index leaves the ring
  (`Pipe.IndexInsideExactly`, `Pipe.FiveIntoTwo`, `Pipe.PipeFS.Write`). `pipe_read` reports blocks it did not deliver (`Pipe.PipeRead`).
- One zero character, or one push too many, silences the keyboard for 1023 pushes
  (`Keyboard.ZeroPushSticks`, `FullPushSticks`, `ZeroIntoFullSticks`).
- Removing a task does not repair the link back of the next one, so removing that one afterwards
  leaves it on the list (`Scheduler.Machine.ListRemove`, `RemoveNeighbours`).
- The bytes of a row are computed in 32 bits: a row of 2^32 bits and more comes out too short
  (`Framebuffer.RowBytesRight`, `WideRowIsLost`). Scrolling by more lines than there are, as the first
  line of text in a lower picture does, leaves the buffer (`ScrollFits`, `LowPictureIsLost`).
- `strcmp` compares only up to the end of its first string, against its comment
  (`CStrings.Strcmp`); `Path::valid` relies on that, and `fopen` adds the comparison of lengths. The
  check of `fopen` for a path of just a root never fires (`Paths.ValidHasTwoParts`).

## Model

| member | source | states |
|---|---|---|
| Disk.DiskStream.Read | src/kernel/drivers/disk/disk_streamer.c:50-76 | A read of any length from any position copies exactly that slice of the device, ends with the position behind it and stops; the number of sectors fetched is exact and includes one more for a read that ends on a sector boundary |
| Disk.DiskStream.ReadBlock | src/kernel/drivers/disk/disk_streamer.c:62-63 | One sector of the device |
| FatChain.Walk | src/kernel/fs/fat16/fat16.c:360-388 | The n-th cluster of a chain read straight from the table; behind the first cluster it is never 0 |
| FatChain.WalkFailsExactly | src/kernel/fs/fat16/fat16.c:360-388 | The walk fails if and only if one of the entries on the way is 0xFFF8, 0xFFFF, 0xFF7, 0xFF0, 0xFF6 or 0 |
| FatChain.WalkSplit | src/kernel/fs/fat16/fat16.c:360-388 | Walking m + n steps is walking m steps and then n, failures included |
| FatChain.CachedLookupAgrees | src/kernel/fs/fat16/fat16.c:334-399 | From any correct cache a lookup answers like the walk from the first cluster, with the same -EIO, and leaves a correct cache |
| FatChain.HistoryAgrees | src/kernel/fs/fat16/fat16.c:334-399 | So does every lookup of every history of lookups on one descriptor, cyclic tables included |
| FatDriver.FileSystem.GetNextFatEntry | src/kernel/fs/fat16/fat16.c:302-323 | The 16-bit little-endian table entry of a cluster, through the disk stream |
| FatDriver.FileSystem.GetNthClusterFromFat | src/kernel/fs/fat16/fat16.c:334-399 | Result is the uncached walk or -EIO; the cache afterwards is the specified one; the table entries read are counted exactly on success |
| FatDriver.FileSystem.FollowChain | src/kernel/fs/fat16/fat16.c:360-388 | The loop over the table ends after at most the steps asked for, with the walk or -EIO |
| FatDriver.FileSystem.ReadChunk | src/kernel/fs/fat16/fat16.c:415-435 | One pass: at most a cluster of bytes from the place of the offset in its cluster onwards, or none when there is no usable cluster |
| FatDriver.FileSystem.ReadCluster | src/kernel/fs/fat16/fat16.c:412-439 | A block of any length is read from the places the chunk loop takes it from, and the kernel panics exactly when a chunk has no usable cluster |
| FatDriver.FileSystem.Read | src/kernel/fs/fat16/fat16.c:728-750 | A whole call: the blocks one behind the other, the position moved by all of them, the cache and the number of table entries read as specified |
| FatDriver.NextChunk | src/kernel/fs/fat16/fat16.c:415-435 | The bytes of a block up to one more chunk are those up to the last chunk and the chunk |
| FatProperties.FileByteAt | src/kernel/fs/fat16/fat16.c:334-399 | Byte i of the concatenated clusters of a chain lies in cluster i / size of it, at i mod size |
| FatProperties.FileBytesAreSlice | src/kernel/fs/fat16/fat16.c:412-439 | The bytes at those places are the slice of the concatenated clusters |
| FatProperties.Layout | src/kernel/fs/fat16/fat16.c:53-68 | Cluster 2 lies at the end of the root directory, in bytes from the start of the device with its partition offset; the clusters follow it, each as long as its sectors; the entry of a cluster lies twice its number behind the reserved sectors |
| FatProperties.RelocatedEntry | src/kernel/fs/fat16/fat16.c:65-68 | On a volume that lies k bytes further on, with the same content, every table entry is the same and every cluster lies k bytes further on |
| FatProperties.RelocatedBlock | src/kernel/fs/fat16/fat16.c:412-439 | A block is read alike wherever the volume lies, and found unreadable alike |
| FatProperties.RelocatedRead | src/kernel/fs/fat16/fat16.c:728-750 | So is every call |
| FatProperties.RelocatedFile | src/kernel/fs/fat16/fat16.c:334-399 | The concatenated clusters of a file are the same bytes wherever the volume lies |
| FatProperties.RightExactlyWhenRunsOn | src/kernel/fs/fat16/fat16.c:412-439 | On a long enough file every byte of a block is taken from its right place if and only if the offset is a multiple of the cluster size or every chunk that runs over the end of its cluster runs into the next cluster of the file |
| FatProperties.ExactOnEveryDevice | src/kernel/fs/fat16/fat16.c:412-439 | The block is right for every content of the data area, with the same table, if and only if it runs on in that way |
| FatProperties.UnalignedReadGoesWrong | src/kernel/fs/fat16/fat16.c:412-439 | A device with a FAT16 partition at 1 MB that mounts, with the geometry of its boot record, and a file and an offset on it for which the bytes are wrong: the chunk is not shortened by the offset inside its cluster |
| FatProperties.ReadIsFile | src/kernel/fs/fat16/fat16.c:728-750 | A call all of whose blocks run on delivers the bytes of the file |
| FatProperties.ReadIsSlice | src/kernel/fs/fat16/fat16.c:728-750 | On a long enough chain those are the slice of the concatenated clusters |
| FatProperties.BlockOfRead | src/kernel/fs/fat16/fat16.c:739-746 | Block i of a call is the block read at its offset |
| FatProperties.ExactCallOnEveryDevice | src/kernel/fs/fat16/fat16.c:728-750 | A whole call delivers the bytes of the file, for every content of the data area with the same table, if and only if every one of its blocks runs on |
| FatProperties.ExactSliceOnEveryDevice | src/kernel/fs/fat16/fat16.c:728-750 | The same on a long enough chain for the slice of the concatenated clusters |
| FatProperties.LongEnoughIsReachable | src/kernel/fs/fat16/fat16.c:412-439 | A chain with enough clusters for the call is read without a failed assertion |
| FatProperties.SequentialCost | src/kernel/fs/fat16/fat16.c:334-399 | Looking up k clusters in order reads at most k - 1 table entries, exactly k - 1 from an empty cache |
| FatProperties.AnySplitCostsTheSame | src/kernel/fs/fat16/fat16.c:728-750 | Any split of whole clusters into calls and blocks reads as many table entries as one lookup per cluster |
| FatProperties.SequentialReadCost | src/kernel/fs/fat16/fat16.c:728-750 | k whole clusters in order from position 0, however split into calls and from any correct cache, cost at most k - 1 table entries, and exactly k - 1 from an empty cache |
| HeapTable.UniqueDecoding | src/kernel/memory/heap/heap.c:126-153 | A table is the encoding of at most one set of extents, although no byte marks a first block |
| HeapTable.UniqueEncoding | src/kernel/memory/heap/heap.c:126-153 | A set of extents is encoded by one table |
| HeapTable.TableBytes | src/kernel/memory/heap/heap.c:126-134 | An allocation is 0x81 in every block but the last and 0x01 there; every other block is 0 |
| HeapTable.TakeKeeps | src/kernel/memory/heap/heap.c:126-134 | Taking a free run keeps the table an encoding and adds that extent |
| HeapTable.FreeKeeps | src/kernel/memory/heap/heap.c:142-153 | Freeing a live allocation removes its extent and no other |
| HeapTable.FreeUndoesTake | src/kernel/memory/heap/heap.c:126-153 | Freeing what was just taken restores every byte of the table |
| HeapTable.FreeOfFree | src/kernel/memory/heap/heap.c:142-153 | Freeing a block that no allocation covers changes nothing |
| HeapTable.Conservation | src/kernel/memory/heap/heap.c:126-153 | Taken blocks are the sum of the sizes of the live extents |
| HeapTable.RoomForOne | src/kernel/memory/heap/heap.c:89-117 | A table with a block not taken has a run of one |
| Heap.Heap.constructor | src/kernel/memory/heap/heap.c:186-201 | The table is cleared; nothing is allocated |
| Heap.Heap.Create | src/kernel/memory/heap/heap.c:186-201 | -EINVARG exactly when an end is not aligned or the table has not as many entries as there are blocks |
| Heap.BlocksAreCeiling | src/kernel/memory/heap/heap.c:39-45 | A size is rounded up to whole blocks, except for the last 4095 sizes, which wrap to none |
| Heap.Heap.GetStartBlock | src/kernel/memory/heap/heap.c:89-117 | The lowest run of enough free blocks if there is one; otherwise the free run at the end of the table, or -ENOMEM if there is none |
| Heap.SearchIsUnique | src/kernel/memory/heap/heap.c:89-117 | That description leaves no choice |
| Heap.TrailingRunIsShort | src/kernel/memory/heap/heap.c:89-117 | Without a run that is long enough the blocks of that answer run over the end of the table |
| Heap.InsideExactlyIfAnswered | src/kernel/memory/heap/heap.c:89-117 | The blocks of the answer stay inside the table if and only if there is a long enough run or no free block at the end |
| Heap.OneBlockForTwo | src/kernel/memory/heap/heap.c:89-117 | A table with one free block answers a search for two |
| Heap.Heap.MarkBlocksTaken | src/kernel/memory/heap/heap.c:126-134 | The loop marks an allocation as specified |
| Heap.Heap.MarkBlocksFree | src/kernel/memory/heap/heap.c:142-153 | The loop frees the chain of blocks as specified |
| Heap.Heap.Malloc | src/kernel/memory/heap/heap.c:210-216 | First fit and a new extent apart from all others when a run exists; otherwise null, or a byte behind the table is marked |
| Heap.Heap.Free | src/kernel/memory/heap/heap.c:223-226 | The extent at the pointer is gone and nothing else, if it lies less than 2 GB above the start of the heap; further up nothing changes, nor for a free block or a pointer that leads to no block |
| Heap.Heap.AddressRoundTrip | src/kernel/memory/heap/heap.c:65-80 | An address leads back to its block if and only if that lies less than 2 GB above the start; otherwise to a negative number |
| Heap.Heap.BlockOfPointer | src/kernel/memory/heap/heap.c:77-80 | Exactly which pointers a free takes for a block of the heap: those into it, less than 2 GB above its start, and those less than a block below its start, for block 0 |
| HeapRuns.StepKeeps | src/kernel/memory/heap/heap.c:89-226 | A malloc that fits or a free of a live block keeps the table an encoding of what is live or was freed in vain |
| HeapRuns.EveryRunIsSound | src/kernel/memory/heap/heap.c:89-226 | Over every run of mallocs that fit and frees of live blocks the table is the encoding of the extents that are live or were freed in vain, and of no others, and taken blocks are the sum of ceil(size / 4096) over both |
| HeapRuns.LostByFarFrees | src/kernel/memory/heap/heap.c:77-80 | Nothing is freed in vain if and only if no block 2 GB or more above the start is freed |
| HeapRuns.TableIsLiveExactlyIfNear | src/kernel/memory/heap/heap.c:89-226 | The table is the encoding of the live extents alone if and only if no such block has been freed |
| HeapRuns.SmallHeapIsNear | src/kernel/memory/heap/heap.c:89-226 | Which no run on a heap of at most 2 GB does |
| HeapRuns.FarFreeStaysTaken | src/kernel/memory/heap/heap.c:77-80 | A run on a larger heap after which a freed block is still taken |
| HeapRuns.Execute | src/kernel/memory/heap/heap.c:210-226 | Any such run on the heap itself, with the addresses it hands out, leaves the table and the extents of the run |
| Words.PageMask | src/kernel/memory/paging/paging.c:135 | entry & 0xfffff000 clears exactly the twelve flag bits |
| Words.PageOrMask | src/kernel/memory/paging/paging.c:77 | Masking an or of an aligned address and flags gives the address again |
| Words.BitOfOr | src/kernel/memory/paging/paging.c:77 | Each bit of an or is set if and only if it is in one of the two |
| Words.BitOfAnd | src/kernel/memory/paging/paging.c:135 | Each bit of an and is set if and only if it is in both |
| Ram.WriteWord | src/kernel/memory/paging/paging.c:136 | Four bytes, the lowest first, each stated, and no others |
| Ram.MemSet | src/kernel/memory/memory.c:13-21 | The bytes of the range get the value, no others change |
| Ram.MemCpy | src/kernel/memory/memory.c:31-38 | The bytes of the range are those of the source, no others change |
| PageTables.FramesKept | src/kernel/memory/paging/paging.c:122-156 | A change outside the frames of a directory leaves its flat map alone |
| PageTables.EntryWritten | src/kernel/memory/paging/paging.c:122-139 | Writing one entry changes one page of the flat map |
| PageTables.AccessTranslates | src/kernel/memory/paging/paging.c:122-156 | The walk the processor makes for a user program (present, user and writable bits on both levels) reaches what the flat map says if and only if the directory entry and the page entry permit the access; otherwise it is a page fault |
| KernelMemory.Kernel.KzAlloc | src/kernel/memory/heap/hkeap.c:43-53 | First fit, zeroed, and nothing in use before has changed; null and no change when the heap has no answer |
| KernelMemory.Kernel.GetIndexes | src/kernel/memory/paging/paging.c:28-37 | Directory and table index of an aligned address, -EINVARG for any other |
| KernelMemory.Kernel.SetPage | src/kernel/memory/paging/paging.c:122-139 | Exactly the entry of the page is written; an address that is not aligned fails without change |
| KernelMemory.Kernel.GetPage | src/kernel/memory/paging/paging.c:141-156 | The flat map at the page; for an address that is not aligned the error code as 32 bits |
| KernelMemory.Kernel.Map | src/kernel/memory/paging/paging.c:185-193 | The entry of the page becomes physical | flags |
| KernelMemory.Kernel.MapRange | src/kernel/memory/paging/paging.c:204-216 | Pages v to v+n-1 show frames p to p+n-1 with the flags, counting on through the end of the address space, and every other page is as before; nothing but the tables of this directory is written |
| KernelMemory.Kernel.MapTo | src/kernel/memory/paging/paging.c:227-258 | The same for a range of addresses; -EINVARG without change exactly when an address is not aligned or the end lies before the start |
| Paging.MapOneMore | src/kernel/memory/paging/paging.c:204-216 | One step of the range loop on the flat map |
| Paging.OtherDirectoryKept | src/kernel/memory/paging/paging.c:204-216 | A directory whose frames are not tables of the mapped one is as before |
| Paging.MappingKeepsFlags | src/kernel/memory/paging/paging.c:204-216 | Mapping leaves the flags of every directory entry as they are |
| Paging.MappedTranslates | src/kernel/memory/paging/paging.c:204-216 | What an address in a mapped range translates to |
| Paging.BuiltDone | src/kernel/memory/paging/paging.c:66-84 | A directory of 1024 finished tables is the identity on all 2^20 pages |
| Paging.DirectoryEntryFlags | src/kernel/memory/paging/paging.c:77 | The low twelve bits of a directory entry are the flags asked for, and writable |
| Paging.IdentityAccess | src/kernel/memory/paging/paging.c:66-84 | In a new directory the processor lets a user program reach every address, at itself, exactly as far as the flags permit it |
| Paging.UserDirectory | src/kernel/task/task.c:151 | With the flags of task_init, present and user, that is every address to read and none to write, until the loader maps something; no directory entry stands in the way |
| KernelMemory.NearTake | src/kernel/memory/heap/heap.c:89-117 | First fit takes a block that a free can reach as long as one is free |
| KernelMemory.Kernel.NewDirectory | src/kernel/memory/paging/paging.c:66-84 | With 1026 free blocks: the identity with the flags on every page, the flags and writable on every directory entry, in frames that are new, as many of them within reach of a free as there were, and everything in use before is as before |
| KernelMemory.Kernel.FreeDirectory | src/kernel/memory/paging/paging.c:91-101 | Those of the 1026 blocks of the directory that lie less than 2 GB above the start of the heap are freed, no others |
| KernelMemory.Kernel.MappingKeepsFrames | src/kernel/memory/paging/paging.c:204-216 | Mapping never changes which frames belong to a directory |
| KernelMemory.Kernel.DirectoryLifetime | src/kernel/memory/paging/paging.c:66-258 | A directory created, mapped into any number of times and freed leaves the block table of the heap byte for byte as before if and only if 1026 blocks within reach of a free were free; otherwise as many as were missing stay taken |
| LoadPlan.AlignUpIsCeiling | src/kernel/memory/paging/paging.c:164-171 | The next page boundary |
| LoadPlan.SegmentRight | src/kernel/task/process.cpp:89-119 | A segment that no later update touches translates to its bytes if and only if its virtual address and their place agree modulo 4096 |
| LoadPlan.LoadedSegmentRight | src/kernel/task/process.cpp:83-122 | The same for each segment after the whole load, with its buffers and the stack |
| LoadPlan.LoadedSegmentFlags | src/kernel/task/process.cpp:92-115 | Every page that a segment maps, and nothing after it, is present and open to the program, and writable if and only if the segment is |
| LoadPlan.LoadedBufferFlags | src/kernel/task/process.cpp:99-101 | The same for the pages of a bss buffer, which show the buffer itself |
| LoadPlan.LoadedSegmentAccess | src/kernel/task/process.cpp:83-122 | At each byte of such a segment the processor lets the program read its place and write it if and only if the segment is writable |
| LoadPlan.LoadedStackRight | src/kernel/task/process.cpp:121 | The addresses from 0x3FB000 up to 0x3FF000 are the process stack, whatever the headers say, and the program may read and write them |
| ProcessMemory.Process.NextAllocationIndex | src/kernel/task/process.cpp:145-151 | The lowest free slot or -ENOMEM |
| ProcessMemory.Process.MallocFlags | src/kernel/task/process.cpp:272-291 | A new buffer, mapped to itself and put into the first free slot; null exactly without a free slot, and then no change, or without memory, and then with the pages from address 0 on mapped to themselves |
| ProcessMemory.FillSlotCount | src/kernel/task/process.cpp:272-280 | Each tracked allocation uses up one slot |
| ProcessMemory.Process.LoadBss | src/kernel/task/process.cpp:99-103 | A bss segment gets a buffer of its own that starts with the bytes of the file |
| ProcessMemory.Process.LoadWithoutBuffer | src/kernel/task/process.cpp:89-119 | In the cases in which that is null: the bytes of the file are copied to address 0, the segment shows the memory from there on, and the result is 0 all the same |
| ProcessMemory.Process.LoadSegment | src/kernel/task/process.cpp:89-119 | One header: what is mapped, what is copied, and everything else as before |
| ProcessMemory.Process.MapMemory | src/kernel/task/process.cpp:83-122 | The page map after a load is the old one with all updates in order, the buffers hold their segments, and nothing else in use has changed |
| ProcessMemory.Process.SegmentPlaced | src/kernel/task/process.cpp:83-122 | After a load a segment is at its place in memory exactly under the condition on its address |
| ProcessMemory.Process.SegmentSeen | src/kernel/task/process.cpp:83-122 | Then virtual byte k of it is byte k of its part of the file, and behind that part what the buffer held before |
| ProcessMemory.Process.SegmentAccess | src/kernel/task/process.cpp:92-115 | The same after a load, in a directory no entry of which stands in the way, as a new one for a task is |
| ProcessMemory.Process.StackAccess | src/kernel/task/process.cpp:121 | So the stack can be read and written |
| ProcessMemory.Process.BssIsWhatTheHeapHeld | src/kernel/task/process.cpp:99-103 | A bss segment starts out zero if and only if its heap blocks were |
| Pipe.LastN | src/kernel/fs/pipe/PipeFS.cpp:107-128 | As many bytes as fit, at most n |
| Pipe.LastNTwice | src/kernel/fs/pipe/PipeFS.cpp:52-60 | Keeping the last n bytes after each of two appends keeps the last n of both |
| Pipe.IndicesAfterWrite | src/kernel/fs/pipe/PipeFS.cpp:107-128 | Whatever a write drops, the write index stays the slot behind the contents, and the unsigned count that went below zero comes back |
| Pipe.IndexInsideExactly | src/kernel/fs/pipe/PipeFS.cpp:116-124 | The write index stays inside the ring if and only if the length is at most 2N less it |
| Pipe.FiveIntoTwo | src/kernel/fs/pipe/PipeFS.cpp:116-124 | Five bytes written to a new ring of two: the last lands behind it |
| Pipe.AppendFits | src/kernel/fs/pipe/PipeFS.cpp:116-124 | A write that fits appends, in one piece or in two |
| Pipe.AppendDrops | src/kernel/fs/pipe/PipeFS.cpp:110-124 | A write that does not fit leaves the last bytes of contents and data |
| Pipe.WriteAppends | src/kernel/fs/pipe/PipeFS.cpp:107-128 | Indices and copying together: the ring holds the last N bytes of contents and data |
| Pipe.TwoPieces | src/kernel/fs/pipe/PipeFS.cpp:119-124 | Two copies put the data around the end of the ring, or, beyond twice its size less the write index, into the memory behind it |
| Pipe.PipeFS.constructor | src/kernel/fs/pipe/PipeFS.cpp:61-67 | An empty pipe |
| Pipe.PipeFS.Read | src/kernel/fs/pipe/PipeFS.cpp:87-105 | A prefix of the contents is delivered and removed, or -1 and nothing changes |
| Pipe.PipeFS.Write | src/kernel/fs/pipe/PipeFS.cpp:107-128 | Drop-oldest: the contents become the last N bytes of contents and data. This and the memory behind the ring are right for every length up to 2N less the write index; beyond, the end of the data is written behind the ring |
| Pipe.PipeWrite | src/kernel/fs/pipe/PipeFS.cpp:52-60 | Blocks no longer than the ring, however many, leave what one write of them all would leave |
| Pipe.PipeRead | src/kernel/fs/pipe/PipeFS.cpp:24-34 | The first blocks that are there are delivered in order, the rest are skipped, and the result is nmemb either way |
| Pipe.PutAccounted | src/kernel/fs/pipe/PipeFS.cpp:107-128 | A write keeps the account of every byte |
| Pipe.GetAccounted | src/kernel/fs/pipe/PipeFS.cpp:87-105 | A read keeps the account of every byte |
| Pipe.EveryRunIsAccounted | src/kernel/fs/pipe/PipeFS.cpp:87-128 | Over every run, every byte written has been read once, was dropped, or is held, in the order of writing |
| Pipe.Execute | src/kernel/fs/pipe/PipeFS.cpp:87-128 | Any run of writes no longer than the ring and of reads, on the pipe itself, holds and has delivered what the run says |
| Pipe.Conservation | src/kernel/fs/pipe/PipeFS.cpp:87-128 | Bytes written are bytes read, dropped and held; with none dropped the pipe is a queue |
| Keyboard.PushKey | src/kernel/task/process.cpp:238-248 | The state after a push, nothing for a null process |
| Keyboard.PopKey | src/kernel/task/process.cpp:250-266 | Result and state of a pop, nothing without a current task |
| Keyboard.PushAppends | src/kernel/task/process.cpp:238-248 | A push appends to the queue if and only if the character is not zero and fewer than 1024 are unread |
| Keyboard.PopTakes | src/kernel/task/process.cpp:250-266 | A pop takes the first character, and returns zero exactly when there is none or no task is current |
| Keyboard.RunIsFifo | src/kernel/task/process.cpp:238-266 | Over every run of such pushes and any pops, what is popped is what a queue gives |
| Keyboard.Execute | src/kernel/task/process.cpp:238-266 | Any run of pushes and pops on the buffer of a process gives the state and the characters of the run |
| Keyboard.StuckReadsNothing | src/kernel/task/process.cpp:238-266 | With the head slot empty and the tail gap slots short of it, every pop of a run with at most gap pushes returns zero |
| Keyboard.ZeroPushSticks | src/kernel/task/process.cpp:238-248 | After a push of zero the unread characters are read, and then nothing of the next 1023 pushes |
| Keyboard.ZeroIntoFullSticks | src/kernel/task/process.cpp:238-248 | After a zero pushed into a full buffer nothing that was unread is read, nor anything of the next 1023 pushes |
| Keyboard.FullPushSticks | src/kernel/task/process.cpp:238-248 | A push into a full buffer is read first, in place of the oldest, and then nothing of the next 1023 pushes |
| Cpu.Processor.PushFrame | src/kernel/idt/idt_handler.asm:6-15 | What the interrupt and the stub push is a frame whose fields are all the registers of the program |
| Cpu.Processor.EnterStub | src/kernel/idt/idt_handler.asm:12-18 | The handler gets its vector and the address of that frame |
| Cpu.Processor.EnterFaultStub | src/kernel/idt/idt_handler.asm:12-18 | With an error code from the processor the handler sees only ip, cs, flags, esp and ss right: each general register in the frame is another one, and the error code stands in eax |
| Cpu.Processor.LeaveStub | src/kernel/idt/idt_handler.asm:19-24 | Behind a handler that returns, all registers are those of the frame |
| Cpu.Processor.TaskReturn | src/kernel/task/task.asm:7-44 | All registers are those of the saved struct; the data segments are its ss |
| Scheduler.Machine.SaveState | src/kernel/task/task.c:32-47 | The saved struct is the frame, field by field |
| Scheduler.Machine.TaskNew | src/kernel/task/task.c:147-204 | The task is appended to the list, in both directions, with saved registers of its own: ip is the entry, esp the end of the stack that the loader maps, cs the user code and ss the user data descriptor at level 3, the interrupt bit is the only flag, and all others are 0; the first task becomes current |
| Scheduler.Machine.GetNext | src/kernel/task/task.c:65-70 | The task behind the current one, the first behind the last |
| Scheduler.Machine.ListRemove | src/kernel/task/task.c:72-91 | On any forward chain, whatever the links back: the chain comes out without the task if and only if the link back is right (for the first task: does not point into the rest); the current task stays, or becomes the next one or the first |
| Scheduler.Machine.ChainWithout | src/kernel/task/task.c:72-91 | The same on the links alone |
| Scheduler.Machine.RemoveNeighbours | src/kernel/task/task.c:72-91 | A second removal, of the neighbour behind the first, leaves a wrong chain, as its link back has not been repaired |
| Scheduler.Machine.Preempt | src/kernel/idt/idt.c:116-125 | Up to the handler: the current task has saved all that its program saw |
| Scheduler.Machine.Tick | src/kernel/kernel.cpp:101-108 | A timer interrupt changes to the next task and its directory, and what any task sees of the registers is unchanged |
| Scheduler.Machine.OtherInterrupt | src/kernel/idt/idt.c:116-125 | Any other interrupt for which the stub expects no error code and the handler returns, handled or not, returns to the program with all registers as they were |
| Scheduler.Machine.Execute | src/kernel/kernel.cpp:101-108 | Any run of program steps and interrupts on the machine with its stack and saved structs is the run on what the tasks see |
| Scheduler.InterruptsAreInvisible | src/kernel/kernel.cpp:101-108 | In every run, each task has gone through its own steps and nothing else, as if it ran alone |
| Scheduler.RoundRobin | src/kernel/task/task.c:65-70 | In n timer interrupts each of n tasks gets exactly one turn, and the first one is back |
| Scheduler.AfterTicks | src/kernel/task/task.c:65-70 | Which task runs after k timer interrupts |
| CStrings.Strlen | src/kernel/common/string.c:11-19 | The length up to the zero |
| CStrings.Strncmp | src/kernel/common/string.c:114-129 | Zero exactly when the first n characters are the same, otherwise the difference of the first two that are not; nothing behind the end of a string is read |
| CStrings.Strcmp | src/kernel/common/string.c:517-519 | Zero exactly when the first string is a prefix of the second, otherwise the difference of the first two characters that are not the same |
| CStrings.SameString | src/kernel/fs/file.c:226 | Equal lengths and strcmp zero are equality |
| CStrings.Strcpy | src/kernel/common/string.c:70-81 | The string and its end, and nothing before it |
| Paths.Split | src/kernel/fs/Path.cpp:19-52 | At least one part |
| Paths.JoinSplit | src/kernel/fs/Path.cpp:19-52 | Joining the parts of any path gives the path, empty parts included |
| Paths.SplitJoin | src/kernel/fs/Path.cpp:19-52 | Splitting joined parts gives the parts |
| Paths.SplitAtSlash | src/kernel/fs/Path.cpp:38-44 | The parts around a slash are the parts before and the parts behind it |
| Paths.ValidHasTwoParts | src/kernel/fs/Path.cpp:53-55 | A path that parses has a part behind its root, so the check for a path of just a root never fires |
| Paths.IsValid | src/kernel/fs/Path.cpp:53-55 | Exactly the paths that start with 0:/ |
| Paths.PartGrows | src/kernel/fs/Path.cpp:32-49 | While the parser goes on, finished parts stay and the current one only grows |
| Paths.Parse | src/kernel/fs/Path.cpp:19-52 | For parts that fit their buffers: a list of new nodes that holds the parts of the path, or null exactly for a path that is not valid |
| Mounts.JoinAt | src/kernel/fs/file.c:212-223 | A joined path splits at any part |
| Mounts.PrefixLeads | src/kernel/fs/file.c:212-223 | Each prefix the search tries leads to the path: empty, the path, or followed by a slash in it |
| Mounts.LeadsIsPrefix | src/kernel/fs/file.c:212-223 | Each name that leads to the path is a prefix the search tries |
| Mounts.PrefixGrows | src/kernel/fs/file.c:212-223 | More parts are more characters |
| Mounts.FirstIsBest | src/kernel/fs/file.c:212-243 | The first hit of the search is the mount with the longest name, in the lowest slot |
| Mounts.NothingNamed | src/kernel/fs/file.c:212-245 | A search without a hit means that no name leads to the path |
| Mounts.GetModeByString | src/kernel/fs/file.c:154-172 | Read, write and append if and only if the first character is r, w and a; invalid for everything else |
| Mounts.Reconstruct | src/kernel/fs/file.c:213-223 | The first k parts joined in the buffer, never over its end |
| Mounts.Files.FindMount | src/kernel/fs/file.c:224-242 | The lowest slot mounted under the text in the buffer |
| Mounts.Files.Search | src/kernel/fs/file.c:212-245 | The best mount, or none leads to the path |
| Mounts.Files.NewDescriptor | src/kernel/fs/file.c:51-66 | The lowest free descriptor slot, or -ENOMEM exactly if there is none |
| Mounts.Files.FOpen | src/kernel/fs/file.c:181-252 | -EINVARG without change exactly for a path that does not parse, a mode that begins with none of r, w and a, or a path no mount leads to; otherwise the lowest free descriptor belongs to the mount with the longest name, lowest slot first, and to the parts behind that name, with the mode of the first character; the panic exactly if then the file system does not answer or no descriptor is free |
| Mounts.SameLengthSameName | src/kernel/fs/file.c:226 | Two names of the same length that lead to a path are equal, so the longest name is one |
| Mounts.BehindIsUnique | src/kernel/fs/file.c:227 | The parts behind a name that is not the whole path are determined by name and path |
| Mounts.Files.AddMount | src/kernel/fs/file.c:343-356 | The lowest free slot gets the mount; a full table panics without change |
| Framebuffer.RowBytesRight | src/userland/stdlib/graphics/framebuffer.cpp:34 | The bytes of a row come out right if and only if its bits can be counted in 32 bits |
| Framebuffer.WideRowIsLost | src/userland/stdlib/graphics/framebuffer.cpp:34 | A width and depth for which a row has no bytes |
| Framebuffer.OffsetRight | src/userland/stdlib/graphics/framebuffer.cpp:50 | Then the place the code computes for a pixel, in 32 bits, is its place |
| Framebuffer.Graphics.constructor | src/userland/stdlib/graphics/framebuffer.cpp:29-38 | A picture whose rows and bytes can be counted in 32 bits starts out as 0 everywhere |
| Framebuffer.PixelsApart | src/userland/stdlib/graphics/framebuffer.cpp:50 | Different pixels do not share a byte |
| Framebuffer.BytesOfColour | src/userland/stdlib/graphics/framebuffer.cpp:52-62 | The bytes of a colour add up to it modulo 2^24 and 2^32 |
| Framebuffer.Graphics.DrawPixel | src/userland/stdlib/graphics/framebuffer.cpp:46-63 | The pixel is the colour modulo 2^BPP, in memory as blue, green, red and alpha, every other pixel is as before; outside the picture nothing changes |
| Framebuffer.Graphics.GetPixel | src/userland/stdlib/graphics/framebuffer.cpp:65-84 | The pixel of the picture, 0 outside it |
| Framebuffer.Graphics.MoveDown | src/userland/stdlib/string.c:467-474 | A forward copy to the beginning of its own buffer delivers the old bytes |
| Framebuffer.LinesUp | src/userland/stdlib/graphics/framebuffer.cpp:188-192 | Moving the bytes by whole lines moves each pixel by as many |
| Framebuffer.ScrollFits | src/userland/stdlib/graphics/framebuffer.cpp:188-192 | The bytes a scroll moves and clears, in 32 bits, are the picture if and only if it scrolls by no more lines than there are |
| Framebuffer.LowPictureIsLost | src/userland/stdlib/graphics/framebuffer.cpp:188-192 | A picture and a scroll for which nearly 4 GB are to be moved |
| Framebuffer.Graphics.ScrollScreen | src/userland/stdlib/graphics/framebuffer.cpp:188-192 | Pixel (x, y) becomes what (x, y + 16 a) was, 0 where there is none |
| Framebuffer.Graphics.ClearScreen | src/userland/stdlib/graphics/framebuffer.cpp:199-208 | Every pixel is 0 |

## Left out

- FAT16: directory lookup and 8.3 names, writing, the boot record; the geometry is given, positions stay below 2^31, and a read touches only places on the device.
- Device input and output, interrupt controllers, boot code, segment and control register loads: a sector is a slice of a byte sequence, and of the page registers only which directory is loaded is kept.
- Heap.Heap.Free: of a pointer into the middle of an allocation only the table is stated, not that it still encodes extents, because it then does not.
- The block table itself lies outside the memory of `Ram.dfy`, so a malloc without a long enough run is followed only up to the byte it marks behind the table; sizes within one block of 2^32, which round to no blocks, are followed in the heap only.
- KernelMemory.Kernel.NewDirectory: the path without 1026 free blocks, on which the code writes through null pointers.
- Process loading: ELF parsing, the clean-up paths, `process_free` and termination; headers whose size or end wraps past 2^32. Of a load for which the heap or the allocation slots do not suffice, single headers are followed (ProcessMemory.Process.LoadWithoutBuffer), where the heap answers with no run and the copy ends below the heap.
- Pipe.PipeFS.Write: lengths for which `size + count` wraps in 32 bits.
- Pipe.PipeFS.constructor: rings of no bytes, on which the first use divides by zero, and of 2^31 bytes and more, whose index sums wrap.
- Scheduler.Machine.TaskNew: the paths without memory, which free the half-built task and leave it as the tail.
- Scheduler.Machine.ListRemove: that the memory of a removed task may be used for a new one, to which an old link back would then point.
- Exceptions with an error code behind the entry of their handler, which ends the process, interrupts of the kernel itself, a timer interrupt without a current task (a panic), handlers that change registers or tasks (system calls), and that the data segments come back as ss.
- Cpu.Processor.RunC: the C code between stub and handler appears as any change of the registers and of the stack below the frame.
- Mounts.Files.FOpen: what a file system answers; the parts it is asked for are kept instead. For a path that is itself mounted the code passes the word behind its array of parts, and nothing is said of it. Early returns that leave the parsed path allocated are not modelled; valid paths are shorter than MAX_PATH, beyond which the buffer of the search overflows.
- Framebuffer: other depths than 24 and 32 bits, fonts and text, negative scrolling, what scrolling by more than the height does to memory, and pictures whose rows or bytes cannot be counted in 32 bits.
- Number printing, memset and memcmp of user programs, GDT and IDT packing, the shell and the window server: easy or configuration.
