# DepthOS kernel: a verified model

DepthOS is a 32-bit x86 kernel in C. This project models its memory management, its ext2
reads, its scheduler and its byte streams in Dafny, and proves what they are for: that heap
blocks never overlap over any run, that a forked address space is a faithful and isolated
copy, that a file read across indirect blocks is the flat file, that no runnable task waits
for ever, that pipes lose nothing. Code that works in place is a class whose methods are
proved equal to functions on values; the properties are proved of those functions, over
every input and every run.

| file | part of the kernel |
|---|---|
| `Words.dfy`, `Common.dfy` | 32-bit words, little-endian memory, product and quotient by recursion; small shared notions |
| `Bitmap.dfy` | lib/bitmap.c |
| `PhysicalFrames.dfy` | mm/pmm.c |
| `SlabHeap.dfy`, `HeapInvariant.dfy`, `HeapSteps.dfy`, `HeapRuns.dfy`, `HeapAnswers.dfy`, `HeapExhaustion.dfy`, `KernelHeap.dfy` | mm/heap.c: the operations, the invariant, its preservation, runs of a client, what each call answers, a run that exhausts it, the code in place |
| `PageEntry.dfy`, `PageTables.dfy`, `Paging.dfy`, `CloneSpace.dfy`, `HeapTables.dfy` | include/depthos/paging.h and mm/paging.c; heap blocks as page tables |
| `Areas.dfy`, `PageFaults.dfy`, `MappedFiles.dfy` | mm/vmm.c, fs/file.c, kernel/multiboot.c; what mapped files show |
| `Ext2Device.dfy`, `Ext2.dfy`, `Ext2File.dfy`, `Ext2Disk.dfy`, `Ext2Reads.dfy` | fs/ext2.c: blocks, tables of pointers, inodes, files from the bytes on the disk, runs of reads |
| `BlockBuffers.dfy`, `Ext2Buffers.dfy`, `BufferHeap.dfy`, `Ext2Exhaustion.dfy` | the heap buffers that reads of fs/ext2.c keep, and how many mm/heap.c has room for |
| `LinkedList.dfy`, `Scheduler.dfy`, `Processes.dfy`, `ProcessHistory.dfy` | lib/list.c, kernel/sched.c, kernel/proc.c |
| `RingBuffer.dfy`, `Pipe.dfy`, `LocalSocket.dfy` | lib/ringbuffer.c, fs/pipe.c, net/local_socket.c |
| `Initrd.dfy` | tools/initrd.py, fs/initrd.c |

`dafny verify dfyconfig.toml` checks everything.

## Where the code does not do what it is for

Each of these is proved, with the exact condition a caller can test before the call wherever one call is at fault.

- Allocating when no run of free bits is left inverts the first bits of the bitmap, because the
  result of the scan is held in an unsigned type: `ScanFlipSafeIff`, `AllocAccountedIff`, `AllocSoundIff`,
  with failing states in `ScanFlipAstray`, `FailedAllocFreesPageZero`, `ExhaustedFromBoot`.
- A read that starts `d` bytes before the end of the direct blocks and wants `2 d` bytes plus the
  span of one pointer block stops early: `ReadCompleteIff`, `LongFileStopsEarly`. A count that makes
  `offset + count` wrap escapes the clamp: `ClampedIff`, `WrapSkipsClamp`; bounded reads have none:
  `BoundedNeverWrap`. Missing blocks are not read as zeros, the next block takes their place: `HolesVanish`.
- A read behind the direct blocks never frees the buffers it read pointers into. A run of reads is
  served if and only if those kept and the working one fit the heap: `ReadRun`, `HeapServesIff`,
  `RunOnKernelHeap`; a file of 15 KiB read byte by byte uses it up: `ByteByByteFails`. A read that starts in the
  direct blocks and ends in the single-indirect ones keeps a buffer more, for nothing: `ReadKeeps`.
- A new area takes the place of the first area above it: `SurviveIff`. Address-less mappings lose
  areas that way once refused calls have moved the bump index around 4 GiB: `MmapRunLosesArea`; a run
  loses none if and only if no call maps below an area that is there: `RunExactIff`.
- Page counts are computed with a signed division: `PageCountIff`. An empty frame buffer gives an
  area on which faults repeat for ever: `FramebufferReachableIff`. Pages of a mapped file are
  mapped in the directory of the process that made the area, but the file's bytes are stored through
  the one that faulted: for a forked child the handler faults again, for ever: `LoadFault`.
- Without a run of free frames an anonymous area is mapped to the last page of the address space and
  to page 0 and on: `MappedFramesFreeIff`, `NoRunMapsPageZero`.
- Pushing on a full ring buffer empties it: `PushOnFull`. A wrapped sum lets a write through that does
  not fit, and only then is the stream broken: `EnabledFitsIff`, `WrappedWriteEnabled`, `RunKeepsIff`. Other
  writes longer than the pipe wait for ever: `WriteGetsThroughIff`.
- With preemption disabled a reschedule resumes its caller, dying or asleep: `DestroyedNeverResumed`, `NoEarlyWake`.
- Seeking to the end of a file of the ram disk reaches its last byte, not its end: `SeekStays`.
- A socket queues a pointer to the sender's bytes, so a later store changes the message: `WriteKeepsIff`.
  The receiver follows it in its own memory, and so gets its own bytes unless the two agree on them:
  `StepConservesIff`, `RunConservesIff`, `OwnByteReceived`.

## Model

| member | source | states |
|---|---|---|
| `Bitmaps.Bitmap.Test` | lib/bitmap.c:44-48 | the byte-packed array answers the bit of the sequence it stands for, false out of bounds |
| `Bitmaps.Bitmap.Mark` | lib/bitmap.c:27-31 | changes exactly bit i of the sequence, nothing out of bounds |
| `Bitmaps.Bitmap.Reset` | lib/bitmap.c:33-37 | changes exactly bit i of the sequence, nothing out of bounds |
| `Bitmaps.Bitmap.Flip` | lib/bitmap.c:38-42 | inverts exactly bit i of the sequence, nothing out of bounds |
| `Bitmaps.Bitmap.Set` | lib/bitmap.c:50-56 | sets exactly bit i to the value |
| `Bitmaps.Bitmap.SetMulti` | lib/bitmap.c:58-61 | sets exactly the span, with the loop bound's unsigned difference, and nothing else |
| `Bitmaps.FirstRun` | lib/bitmap.c:63-77 | reference for the scan: the least start of a run of n matching bits; -1 exactly when there is none (or n is 0) |
| `Bitmaps.ScanFindsFirstRun` | lib/bitmap.c:63-77 | the counting loop, from any state it can be in, returns that least start |
| `Bitmaps.Bitmap.Scan` | lib/bitmap.c:63-77 | the loop over the byte array returns the least start of a run, -1 exactly when none exists |
| `Bitmaps.Bitmap.ScanFlip` | lib/bitmap.c:79-89 | the result is the scan's and the new bits are the old ones with n bits inverted from it, as size_t, on |
| `Bitmaps.ScanFlipFound` | lib/bitmap.c:79-89 | with a run, exactly the bits of the first run change |
| `Bitmaps.ScanFlipMissed` | lib/bitmap.c:80-86 | without a run the test on the unsigned result does not fire and the first n - 1 bits are inverted |
| `Bitmaps.ScanFlipSafeIff` | lib/bitmap.c:79-89 | no bit outside the returned run changes if and only if a run exists or at most one bit was asked for |
| `Bitmaps.ScanFlipAstray` | lib/bitmap.c:80-86 | two taken bits, a run of two asked for: the first comes back free |
| `Bitmaps.ScanFlipThenSet` | lib/bitmap.c:58-89 | setting the run back restores the bitmap before a successful scan-and-flip |
| `PhysicalFrames.Frames.constructor` | mm/pmm.c:15-38 | exactly the first 4 MiB are taken after initialisation, the size being the given one or, if that is 0, the configured one |
| `PhysicalFrames.Frames.Alloc` | mm/pmm.c:40-46 | bitmap and address as scan-and-flip gives them, shifted as a 32-bit word |
| `PhysicalFrames.Frames.Free` | mm/pmm.c:48-50 | clears exactly the range |
| `PhysicalFrames.Frames.Set` | mm/pmm.c:56-58 | gives or takes exactly the range |
| `PhysicalFrames.AllocAccounted` | mm/pmm.c:40-46 | a new range is disjoint from all outstanding ranges and from reserved pages, and the bitmap stays exactly their union |
| `PhysicalFrames.AllocAccountedIff` | mm/pmm.c:40-46 | the accounting survives an allocation if and only if a run was found or at most one page was asked for |
| `PhysicalFrames.FailedAllocFreesPageZero` | mm/pmm.c:40-46 | on a machine of at most 4 MiB, all reserved, asking for two pages makes page 0 available |
| `PhysicalFrames.FreeAccounted` | mm/pmm.c:48-50 | returning an outstanding range keeps the accounting |
| `PhysicalFrames.AllocThenFree` | mm/pmm.c:40-50 | freeing a range that was just allocated restores the previous bitmap |
| `PhysicalFrames.AllocFreeIff` | mm/pmm.c:40-46 | the frames answered were free if and only if there was a run of that many (unless both ends of a 4 GiB memory are free) |
| `PhysicalFrames.RunAccounted` | mm/pmm.c:32-50 | over every run outstanding ranges are disjoint, avoid what is reserved, and explain the bitmap exactly |
| `PhysicalFrames.RunFromInit` | mm/pmm.c:15-50 | from the bitmap that initialisation leaves, every outstanding range of every run lies beyond the first 4 MiB and inside memory |
| `SlabHeap.BestFit` | mm/heap.c:163-187 | the first slab of smallest sufficient object size with a free object, -1 exactly when no slab fits |
| `SlabHeap.FindSlab` | mm/heap.c:217-219 | the first slab that holds the address in objects of at least the size, -1 exactly when there is none |
| `SlabHeap.SwapRemove` | mm/heap.c:102-104 | entry i is replaced by the last one, all others stay where they are |
| `HeapSteps.TakeKeeps` | mm/heap.c:198-206 | popping the free list threaded through memory keeps the heap invariant and yields the list's head |
| `HeapSteps.GrowKeeps` | mm/heap.c:43-86 | a new slab's list is acyclic and complete, its pages were free, old slabs keep their bytes and lists, and the invariant holds |
| `HeapSteps.ShrinkKeeps` | mm/heap.c:88-109 | releasing a slab with the swap of the last table entry keeps every other slab and the exactness of the page bitmap |
| `HeapSteps.GiveKeeps` | mm/heap.c:225-241 | returning an object by any of the three branches keeps the invariant and touches no byte outside that object |
| `HeapInvariant.CountIsCapacity` | mm/heap.c:62-69 | the number of objects in the invariant (free list length plus in use) is the capacity the code divides out |
| `HeapRuns.BlocksDisjoint` | mm/heap.c:151-207 | two outstanding blocks never overlap, at their requested sizes |
| `HeapRuns.BlockPlaced` | mm/heap.c:54-69 | every outstanding block lies in the heap, and one of 1024 bytes or more starts on a page boundary |
| `HeapRuns.AllocSound` | mm/heap.c:151-207 | an allocation short of exhaustion hands out a block not in the ledger, keeps every other block's bytes and the invariant, and changes nothing when it answers NULL; when it does is HeapAnswers.AllocAnswersIff |
| `HeapRuns.AllocSoundIff` | mm/heap.c:190-193 | the ledger and the bitmap stay true if and only if the heap is not exhausted (no fitting slab, room in the table, no run of pages) |
| `HeapRuns.FreeSound` | mm/heap.c:209-250 | freeing an outstanding block removes exactly it and keeps the bytes of all others |
| `HeapRuns.WriteSound` | mm/heap.c:37-41 | a client's store inside its own block breaks no free list and changes no other byte |
| `HeapRuns.StepHolds` | mm/heap.c:151-250 | each client operation keeps the ledger and every byte the client stored |
| `HeapRuns.RunHolds` | mm/heap.c:37-250 | the same over every run of allocations, releases and stores |
| `HeapRuns.BootHolds` | mm/heap.c:121-149 | the heap the kernel boots with satisfies the invariant with nothing outstanding |
| `HeapRuns.KernelHeapSafe` | mm/heap.c:121-250 | from boot on, over every run: stored bytes read back, blocks are pairwise disjoint, large blocks are page-aligned |
| `HeapAnswers.AllocAnswersIff` | mm/heap.c:151-207 | in any sound heap and for every size: an address is answered if and only if 0 < size <= 40960 and either some slab has a free object of at least that size, or the table has an entry left and the bitmap a run of the 4 or 10 free pages a new slab takes |
| `HeapAnswers.AllocFromSlab` | mm/heap.c:163-206 | if a slab fits: the block is the first free object of the first smallest fitting slab, that slab's list loses its head, and neither table nor bitmap changes |
| `HeapAnswers.AllocFromNew` | mm/heap.c:43-206 | if none fits and one can be made: the block is the first object of a new slab at the end of the table, of the object size for the request, on the first run of free pages |
| `HeapAnswers.AllocRefused` | mm/heap.c:151-193 | a request that is not served leaves memory and table alone, and the bitmap too unless the heap is exhausted |
| `HeapAnswers.FreeAnswers` | mm/heap.c:209-250 | freeing an outstanding block: one slab owns it; that slab goes, the last entry taking its place and exactly its pages becoming free, if this was its last object in use and another was free; otherwise the block becomes the head of its free list |
| `HeapAnswers.FreeElsewhere` | mm/heap.c:209-250 | an address in no slab of large enough objects, and size 0, change nothing |
| `HeapExhaustion.ExhaustedFromBoot` | mm/heap.c:121-207 | 202 allocations of 40960 bytes from boot, all allowed, leave a heap whose next one breaks ledger and bitmap |
| `KernelHeap.Heaps.Init` | mm/heap.c:121-149 | in place, start-up ends in the state of the value model |
| `KernelHeap.Heaps.Grow` | mm/heap.c:43-86 | the in-place loop that threads the free list through memory refines the value model |
| `KernelHeap.Heaps.Shrink` | mm/heap.c:88-109 | in place, the table, its size and the bitmap end as in the value model |
| `KernelHeap.Heaps.Search` | mm/heap.c:163-187 | the search loop with its early exit finds the best fit |
| `KernelHeap.Heaps.KMalloc` | mm/heap.c:151-207 | memory, slab table and bitmap, updated in place, are those of the value model, and so is the address, which HeapAnswers says for every size |
| `KernelHeap.Heaps.KFree` | mm/heap.c:209-250 | the same for kfree, for any address and size |
| `PageEntry.EntryRoundTrip` | include/depthos/paging.h:71-96 | an entry gives back the page-aligned part of its frame and its flags, and is present and nonzero |
| `PageEntry.EntryBitsRoundTrip` | include/depthos/paging.h:71-96 | the same of the word built by shifts and ors on bit vectors |
| `PageEntry.EntryBitsAdd` | include/depthos/paging.h:71-96 | or-ing the fields of an entry is adding them, since none overlap |
| `HeapTables.TableSurvives` | mm/paging.c:216-221 | a table from kmalloc(4096) comes back unchanged out of its directory entry, and no other block shares its bytes |
| `HeapTables.HeapPagesBusy` | mm/heap.c:131 | after the pmm_set of kheap_init the page allocator has no page of the heap to give |
| `HeapTables.TablePagesUsable` | mm/heap.c:121-207 | together: the pages of all 4096-byte blocks are aligned, nonzero and taken, as the paging model asks of its table pages |
| `PageTables.PhysAddrOfMapped` | mm/paging.c:46-55 | a mapped address translates to its frame plus the page offset |
| `PageTables.PutView` | mm/paging.c:26-44 | with no table shared by two slots, one word of one table is one entry of the flat map |
| `PageTables.AddTableView` | mm/paging.c:213-222 | a new zeroed table changes no translation; its directory word is present, writable and open to the user, and no other directory word changes |
| `PageTables.DropTableView` | mm/paging.c:176-186 | dropping a table clears exactly its 1024 entries of the flat map and its directory word |
| `Paging.Pages.GetPhysAddr` | mm/paging.c:46-55 | the two-level walk computes the translation of the flat map, INVALID_ADDR without a table, a fixed distance before paging is enabled |
| `Paging.Pages.MapPage` | mm/paging.c:213-226 | changes exactly the named page of the flat map; a new table comes from the heap, and its directory word is present, writable and open to the user; other directory words and pages not owned by the directory stay |
| `Paging.Pages.UnmapPage` | mm/paging.c:207-211 | clears exactly the named page, and no directory word |
| `Paging.Pages.MapAddrFixed` | mm/paging.c:127-137 | maps exactly the named pages to consecutive frames, keeping present ones unless overwriting; directory words stay or become present, writable and open to the user |
| `Paging.Pages.UnmapTable` | mm/paging.c:176-186 | drops the table from the directory and gives its page back |
| `Paging.Pages.UnmapAddr` | mm/paging.c:188-206 | with or without table freeing, the flat map is cleared exactly on the range, as page by page; the tables freed are exactly those wholly inside it |
| `CloneSpace.Spaces.ClonePgd` | mm/paging.c:77-121 | the copy is complete (same pages, flags, words, fresh frames, shared kernel entries, and the original's write and user bits in its directory) and the original's view is unchanged; exactly one frame per mapped user page and one page per table and for the directory are taken |
| `CloneSpace.CloneMeans` | mm/paging.c:86-117 | page by page: mapped in the copy exactly if in the original, same flags, same words, in a frame that was not in use |
| `CloneSpace.CloneRights` | mm/paging.c:95-117 | on every user page, directory and table entry together: the child's user may read or write exactly what the parent's two entries permit, which is what the parent's may wherever they are present |
| `CloneSpace.CloneDistinct` | mm/paging.c:77-121 | no two pages of the copy share a frame, and kernel directory entries are the original's |
| `CloneSpace.CloneSeparate` | mm/paging.c:77-121 | parent and child share no user frame, and none of their frames holds a table |
| `CloneSpace.StoreInvisible` | mm/paging.c:77-121 | a user store through one directory is invisible through the other and keeps them separate |
| `CloneSpace.RunInvisible` | mm/paging.c:77-121 | the same for every run of stores of one of them |
| `CloneSpace.OwnStoresOnly` | mm/paging.c:77-121 | through every interleaving of stores of both, each directory stays in step with a memory that only its own stores reached |
| `CloneSpace.NeitherSeesTheOther` | mm/paging.c:77-121 | so in every interleaving each of the two reads, on every user page, what its own stores alone would have left |
| `CloneSpace.CloneNeedsFrames` | mm/paging.c:98-99 | any such copy needs a free frame for each mapped user page, so the demand for that many is exact |
| `CloneSpace.OutOfFrames` | mm/pmm.c:40-46 | with no frame left every single-page allocation answers 0xFFFFF000 and leaves the bitmap |
| `Areas.OverlapIff` | mm/vmm.c:54-57 | the overlap test is true exactly when the two areas share an address |
| `Areas.AtMostOneArea` | mm/vmm.c:137-151 | in an ordered list at most one area contains an address |
| `Areas.FirstAbove` | mm/vmm.c:137-145 | where the walk stops: the first area starting above the address |
| `Areas.RefusedIff` | mm/vmm.c:137-144 | the walk, which stops early, refuses exactly the areas that share an address with any area of the list |
| `Areas.LinkedOrdered` | mm/vmm.c:145-155 | the list stays sorted and pairwise disjoint and contains the new area |
| `Areas.SurviveIff` | mm/vmm.c:145-149 | all old areas are still in the list if and only if none of them starts above the new one |
| `Areas.Task.Create` | mm/vmm.c:107-156 | in place: EINVAL, ENOMEM or the new list, nothing else changed; the new area has the address and size given, no limit, no physical address, no loader, and the task's directory |
| `Areas.Task.DoMmap` | mm/vmm.c:59-105 | the anonymous path with all its error answers |
| `Areas.Task.SysMmap` | mm/vmm.c:26-49 | fixed, addressed and address-less calls with their exact error numbers; the bump index moves even when the call fails |
| `Areas.MmapAnswers` | mm/vmm.c:59-156 | which error exactly for which address and length, and on success the region: the pages from the address on that hold the length, none of them taken before, anonymous, in the task's directory |
| `Areas.MmapStepKeeps` | mm/vmm.c:29-47 | an address-less call succeeds exactly when the region fits below the kernel, and then appends it |
| `Areas.RunKeeps` | mm/vmm.c:26-156 | from any list the bump allocator made, a run whose index has not carried an address around 4 GiB never maps below an area that is there |
| `Areas.RunExactIff` | mm/vmm.c:137-156 | from any list: a run leaves the old areas and then exactly the answered regions, in order, if and only if no call of it maps below an area that is there already |
| `Areas.RunPlaces` | mm/vmm.c:34-37 | where each call of a run maps: behind the base by the pages of all calls before it, failed ones included, in 32 bits |
| `Areas.RunRegular` | mm/vmm.c:59-156 | any run keeps the list ordered, disjoint, page-aligned and below the kernel |
| `Areas.MmapRunExact` | mm/vmm.c:26-156 | from an empty list: always ordered, disjoint, page-aligned, below the kernel base; the list is the answers if and only if no call maps below another, and so while the index has not carried an address around 4 GiB |
| `Areas.MmapRunLosesArea` | mm/vmm.c:34-37 | three calls after which an answered region is gone: a refused call moves the index, the next address wraps to 0 and takes the first area's place |
| `Areas.PageCountIff` | mm/vmm.c:119 | the page count is the number of pages of the size if and only if the size is below 2 GiB (ceil_div is signed) |
| `PageFaults.FirstHit` | mm/vmm.c:225-227 | the area the walk stops at is the first that contains the address |
| `PageFaults.ProgressIff` | mm/vmm.c:234-262 | every fault on an area that passes the limit check is for a page that gets mapped, if and only if the area's pages reach its limit, or none passes because the end of the limit wraps |
| `PageFaults.NewAreaReachable` | mm/vmm.c:115-119 | areas as created, below 2 GiB, are such areas |
| `PageFaults.FramebufferReachableIff` | kernel/multiboot.c:71-79 | after the device's mmap and the cap of vma_map_file an area is such if and only if the frame buffer is not empty and the signed division does not go wrong, which it does within two pages of 4 GiB |
| `PageFaults.MappedStaysPlaced` | mm/vmm.c:158-190 | areas stay fit for the fault handler when an ext2 file or a frame buffer is mapped into them, and an ext2 mapping keeps the page count |
| `PageFaults.MappedFields` | mm/vmm.c:172-190 | all fields of the area after an ext2 file or a frame buffer is mapped into it: file offset, physical address, limit, and as many pages as the area has room for |
| `PageFaults.OtherViewKept` | mm/paging.c:213-226 | mapping user pages in one directory leaves the view of a directory apart from it unchanged |
| `PageFaults.FaultHandler.MapAddr` | mm/paging.c:158-174 | frames as the page allocator gives them, mapped exactly on the range |
| `PageFaults.FaultHandler.LoadPage` | fs/file.c:8-33 | the answer LoadKind, whose meaning MappedFiles.LoadIs and FaultIs give, and the whole new state: unchanged on Crash and BusError; a frame taken but nothing seen of it if the copy itself faults; on Ignore the page mapped and the bytes read in its frame |
| `PageFaults.FaultHandler.CopyOut` | fs/file.c:31 | a store to user memory goes through the directory that faulted: it faults exactly if the page is absent there, and otherwise changes just that frame |
| `PageFaults.FaultHandler.MapWhole` | mm/vmm.c:237-272 | the physical and anonymous branches: exactly the area's pages are mapped, to consecutive frames, and zeroed for an anonymous area; the faulting page is present afterwards exactly if it is among them |
| `PageFaults.MappedFramesFreeIff` | mm/paging.c:158-174 | the frames an anonymous area gets were free if and only if there was a run of that many |
| `PageFaults.NoRunMapsPageZero` | mm/paging.c:158-174 | without one, the second page of the area is mapped to physical page 0 |
| `PageFaults.FaultHandler.LoadFault` | mm/vmm.c:245-252 | the file branch, reading at the page's offset: on Ignore the page is present and its frame holds the bytes read; the copy faults again exactly if the area belongs to another directory, as for a forked child, and the faulting view is then unchanged |
| `PageFaults.FaultHandler.PageFault` | mm/vmm.c:217-288 | the answer for every area, page and file, and the whole new state (frame bitmap, view, contents of frames); MappedFiles says what both are in terms of the file's contents |
| `PageFaults.FaultHandler.Violation` | mm/vmm.c:273-284 | a fault on a present page is let go exactly for a write to a page marked copy-on-write |
| `MappedFiles.LoadIs` | fs/file.c:8-33 | whatever at most 4096 bytes the file returns: Crash exactly without a read operation, BusError exactly if it returned none or the offset behind them wraps |
| `MappedFiles.FaultIs` | mm/vmm.c:234-252 | all answers for a page that is absent: BusError if and only if the address is at or past the end of the area's limit or, for a file area, page start - area start + file offset is at or past the file's length; Crash if and only if within the limit and the file has no read operation; a fault of the copy itself if and only if there are bytes and the area is another directory's |
| `MappedFiles.ServedShows` | fs/file.c:19-32 | on Ignore the page is present, writable and the user's unless the task is the kernel's, its frame is the one pmm_alloc answered and starts with the file's contents from that offset, min(4096, rest) bytes; the rest of the frame, all other frames and all other pages are as they were |
| `MappedFiles.ServedWhole` | mm/vmm.c:237-262 | on Ignore for an area without a file to load from: page i is at the base frame plus i pages with those rights, and no page outside changes |
| `MappedFiles.AnonymousZero` | mm/vmm.c:265-272 | every address of a new anonymous mapping reads as zero |
| `MappedFiles.MappingShowsFile` | mm/vmm.c:217-272 | over every run of faults on a mapped file and frames taken for others in between, while frames are left: every present address of the mapping holds the byte of the file that belongs to it |
| `MappedFiles.PageReadIs` | fs/ext2.c:347-368 | a page read of an ext2 file stored on a disk returns the disk's bytes for that page, unless the page is the last below 4 GiB |
| `MappedFiles.MappedIsDisk` | fs/ext2.c:421-428 | so for a mapped ext2 file: BusError exactly over the limit or at or past the inode's size, and otherwise the page gets the bytes the pointers on the disk lead to |
| `Ext2Device.ReadBlock` | fs/ext2.c:36-46 | the sector loop's result: the sectors from the 32-bit product on, or the buffer as it was when they are not on the device |
| `Ext2Device.TransferIsBlock` | fs/ext2.c:36-46 | for a block on the disk the sector arithmetic reaches exactly the block's bytes, whatever the buffer held |
| `Ext2Device.BlocksReadable` | fs/ext2.c:36-46 | so blocks on the disk are blocks of the volume the rest of the model reads |
| `Words.QuotIsDiv` | fs/ext2.c:125-126 | quotient and remainder by recursion are machine division |
| `Ext2.SyncDirect` | fs/ext2.c:120-164 | for every table, holes included: the bytes copied and their number, and nothing else of the buffer changes; one block buffer is used and given back, and the answer is -1 exactly when the heap has none |
| `Ext2.SyncIndirect` | fs/ext2.c:166-176 | the same through a block of pointers (which bytes those are: Ext2Disk.PointerIs); the buffer for the pointers is kept, so room for one buffer less is left, and two are needed |
| `Ext2.GroupOf` | fs/ext2.c:183-210 | block and group numbers by repeated division agree with division by the span of a pointer block |
| `Ext2.GroupStart` | fs/ext2.c:183-210 | the offset left after subtracting the group's start is the remainder by that span |
| `Ext2.SyncDouble` | fs/ext2.c:178-244 | the same through a block of pointers to blocks of pointers, starting in the middle of a group; one buffer is kept, and one more for each group visited |
| `Ext2File.DirectIsTable` | fs/ext2.c:120-164 | where the blocks asked for exist, a read of a table delivers the table's bytes from the offset on |
| `Ext2File.DoubleIsGroups` | fs/ext2.c:178-244 | and a read behind two levels of pointers the bytes laid end to end behind them |
| `Ext2File.HolesVanish` | fs/ext2.c:128-134 | for every table: a read finds the present blocks laid end to end from the entry of the offset on, and returns all it asks for if and only if enough of them follow |
| `Ext2File.HoleShifts` | fs/ext2.c:128-134 | with the first block missing the read returns the second one in its place |
| `Ext2File.ClampedIff` | fs/ext2.c:275-282 | the clamp, in 32 bits, leaves min(count, size - offset) if and only if the sum does not wrap past the file's end |
| `Ext2File.WrapSkipsClamp` | fs/ext2.c:276-282 | a read of a file of 5000 bytes that is not clamped at all |
| `Ext2File.SyncInode` | fs/ext2.c:246-344 | for every inode, offset, count and room in the heap: what each phase delivers, in order, the tests between the phases, the length returned, the buffers used in each phase and the room left, -1 exactly if a buffer was missing |
| `Ext2File.InodeIsFile` | fs/ext2.c:246-344 | for a fully allocated inode and a sum that does not wrap past the end those bytes are the flat file's from the offset on, across all boundaries, and their number is given exactly |
| `Ext2Disk.PointerIs` | fs/ext2.c:166-176 | entry j of a pointer block is the little-endian word at bytes 4j to 4j + 3 of its block on the disk |
| `Ext2Disk.FileIsDisk` | fs/ext2.c:120-244 | byte x of the flat file is byte x mod bs of the block that x / bs leads to: a direct pointer, a word of the single-indirect block, or a word of the pointer block that a word of the double-indirect block names |
| `Ext2Disk.StoredAllocated` | fs/ext2.c:246-344 | an inode whose pointers on the disk are all good is fully allocated in the sense of the read theorems |
| `Ext2Disk.ReadIsDisk` | fs/ext2.c:246-344 | byte i that a read returns is that byte of the disk, for every offset and count whose sum does not wrap past the end, stated from disk bytes alone |
| `Ext2File.ReadCompleteIff` | fs/ext2.c:307-312 | a read returns all there is if and only if it is not the kind that stops early; reads of at most one pointer block's span never are; it returns 0 only for count 0 or at the end |
| `Ext2File.LongFileStopsEarly` | fs/ext2.c:310-312 | every file that reaches the double-indirect blocks has a read that stops one byte short |
| `Ext2Reads.OpenFile.Read` | fs/ext2.c:347-368 | buffer, offset and end-of-file flag after one read, for every offset and count, and the room it leaves in the heap |
| `Ext2Reads.ReadRun` | fs/ext2.c:347-368 | a caller that reads on and on gets what the reads deliver, put together, if and only if the heap has room for the buffers they keep and the working one; then the room left is less by those kept |
| `Ext2Reads.BoundedNeverWrap` | fs/ext2.c:276-282 | reads of at most n bytes in a file that ends n bytes below 4 GiB have no sum that wraps |
| `Ext2Reads.ReadsAreTheFile` | fs/ext2.c:347-368 | a run of reads, none of whose sums wraps past the end at its own offset, returns a piece of the file without gap or repetition, if and only if the heap has room for its buffers |
| `Ext2Reads.SmallReadsComplete` | fs/ext2.c:347-368 | given that room, and only then, such reads of at most one pointer block's span concatenate to min(sum, size - offset) bytes of the file |
| `Ext2Reads.EnoughReadsComplete` | fs/ext2.c:347-368 | given that room, and only then, enough such reads of nonzero sizes return the whole rest of the file, and then nothing |
| `BlockBuffers.ServedIff` | fs/ext2.c:120-244 | a sequence of buffers, each kept or given back before the next, is served if and only if there is room for those kept and the last working one; the room left is then exact |
| `Ext2Buffers.ReadKeeps` | fs/ext2.c:166-332 | the buffers any read of a fully allocated inode keeps, exactly: one if a byte comes from behind the single-indirect block; one for the double-indirect block and one for each pointer block behind it that a byte comes from; and one for nothing if it starts in the direct blocks and ends in the single-indirect ones while there is a double-indirect block |
| `Ext2Buffers.RunKeeps` | fs/ext2.c:166-368 | so a run of reads of at most one pointer block's span keeps at most three for each |
| `Ext2Buffers.ChunkedReads` | fs/ext2.c:246-368 | put together: a fully allocated file at least one pointer block's span below 4 GiB, read in chunks of at most that span, is the flat file in order if and only if the heap has room for the buffers; three for each read and one are enough |
| `Ext2Buffers.ByteByByte` | fs/ext2.c:166-244 | any file read byte by byte needs one buffer for each byte behind the direct blocks, another for each behind the single-indirect ones, and one more |
| `BufferHeap.HeapServesIff` | mm/heap.c:43-250 | from boot, whatever the buffers are filled with, the kernel heap serves a sequence of buffers of one block size if and only if those kept and the working one are at most BufferRoom; if not, it ends up exhausted |
| `BufferHeap.AllocServes` | mm/heap.c:151-207 | with k buffers of that size outstanding and nothing else: one more is served if and only if k is below BufferRoom, and the heap is exhausted exactly if it is not |
| `BufferHeap.PageBuffers` | mm/heap.c:54-69 | blocks of at most 4096 bytes: 2040 of them |
| `BufferHeap.NoHeapServesMore` | mm/heap.c:54-207 | in any sound heap, whoever else allocates, the large blocks outstanding and the buffers needed are at most 2048 |
| `Ext2Exhaustion.RunOnKernelHeap` | fs/ext2.c:166-368 | a run of reads of any inode is served by the kernel heap from boot, and delivers its bytes, if and only if its buffers fit |
| `Ext2Exhaustion.ByteByByteFails` | fs/ext2.c:169-176 | a file of 15 KiB in blocks of 1 KiB read byte by byte needs 3073 buffers: no heap serves it |
| `LinkedList.List.Insert` | lib/list.c:18-35 | the entry goes between the two given nodes, whatever stood between them leaves; the length counts right if and only if they were neighbours |
| `LinkedList.List.InsertValue` | lib/list.c:37-45 | the same with a new node, on the sequence of values |
| `LinkedList.List.Remove` | lib/list.c:47-63 | exactly that node leaves the sequence, and keeps its own links |
| `LinkedList.List.Push` | lib/list.c:89-91 | appends |
| `LinkedList.List.Pop` | lib/list.c:93-100 | takes the last, NULL and no change when empty |
| `LinkedList.List.PushFront` | lib/list.c:102-104 | prepends |
| `LinkedList.List.PopFront` | lib/list.c:106-113 | takes the first, NULL and no change when empty |
| `LinkedList.WalkVisits` | include/depthos/list.h:25-30 | following next pointers visits the sequence in order and then ends |
| `Scheduler.PickNearest` | kernel/sched.c:174-192 | the retry walk ends, by cyclic distance to idle, at the nearest task after the current one that is not asleep past the clock |
| `Scheduler.NearestUnique` | kernel/sched.c:174-192 | that nearest task is unique |
| `Scheduler.ReschedKeeps` | kernel/sched.c:194-206 | a reschedule keeps the invariant: current entry listed with the current task as item, every task once, idle present |
| `Scheduler.ReschedLeaves` | kernel/sched.c:174-206 | every task but the picked one and a dying caller keeps its state and its place in the list order; the picked sleeper becomes running, nobody else does |
| `Scheduler.DestroyedNeverResumed` | kernel/sched.c:199-205 | a dying caller is gone and something else runs if and only if preemption is on; nobody else is destroyed |
| `Scheduler.NoEarlyWake` | kernel/sched.c:185-205 | what runs after a reschedule is not asleep past the clock if and only if preemption is on or the caller was not; with preemption on it is awake |
| `Scheduler.SleepsOn` | kernel/sched.c:185-206 | over every run that leaves it asleep (no mark, no removal, ticks below w) a task asleep until w stays so and no reschedule with preemption on resumes it |
| `Scheduler.SleepHolds` | kernel/sched.c:185-218 | the same from the moment it goes to sleep |
| `Scheduler.StepKeeps` | kernel/proc.c:405-417 | adding, sleeping, marking, removing another thread and rescheduling keep the invariant |
| `Scheduler.Run` | kernel/sched.c:194-218 | the invariant holds after every run |
| `Scheduler.Closer` | kernel/sched.c:174-206 | a reschedule with preemption on that does not pick an eligible task brings it at least one step closer, also when the caller is destroyed; with preemption off nothing changes |
| `Scheduler.StepDistance` | kernel/sched.c:194-218 | no other step brings it further away, except one added task by one |
| `Scheduler.BoundedWaiting` | kernel/sched.c:174-218 | a task that stays eligible at cyclic distance d is overlooked by fewer reschedules with preemption on than d plus the number of tasks added, over every run |
| `Scheduler.Kernel.constructor` | kernel/sched.c:93-117 | idle alone, satisfying the invariant |
| `Scheduler.Kernel.PickNext` | kernel/sched.c:174-192 | the loop finds the picked task and wakes it, and changes no other state |
| `Scheduler.Kernel.Reschedule` | kernel/sched.c:194-206 | in place, the new state is the value model's, and the invariant holds; ReschedLeaves says what that leaves alone |
| `Scheduler.Kernel.SchedAdd` | kernel/sched.c:208-212 | appends the task as starting |
| `Scheduler.Kernel.SchedRemove` | kernel/sched.c:214-218 | removes exactly that task |
| `Scheduler.Kernel.Destroy` | kernel/proc.c:344-349 | removing a thread that is not running keeps the invariant |
| `RingBuffers.RingBuffer.constructor` | lib/ringbuffer.c:5-22 | an empty queue |
| `RingBuffers.RingBuffer.Push` | lib/ringbuffer.c:24-31 | in place, the whole new state, full or not |
| `RingBuffers.PushOnFull` | lib/ringbuffer.c:27-29 | a push on a full buffer makes its size 0, and the indices fit that only with a single slot |
| `RingBuffers.RingBuffer.PushN` | include/depthos/ringbuffer.h:24-30 | in place, the whole new state, for any number of elements |
| `RingBuffers.PushedAllIff` | include/depthos/ringbuffer.h:24-30 | elements that fit are appended to the queue; the size grows by their number if and only if they fit |
| `RingBuffers.RingBuffer.Pop` | lib/ringbuffer.c:33-39 | takes the oldest element, nothing when empty |
| `RingBuffers.PopTakes` | lib/ringbuffer.c:33-39 | what is popped is the front of the queue, the rest stays |
| `Pipes.EnabledFitsIff` | fs/pipe.c:77 | a write that gets past the wait fits the buffer if and only if the unsigned sum does not wrap |
| `Pipes.WrappedWriteEnabled` | fs/pipe.c:77 | a full pipe lets a write of 0xFFFFF000 bytes through at once |
| `Pipes.StepKeepsIff` | fs/pipe.c:40-85 | a read or write that gets past its wait keeps read followed by buffered equal to written if and only if its sum does not wrap; an enabled read of more than 0 bytes returns at least one |
| `Pipes.RunKeepsIff` | fs/pipe.c:40-85 | over every interleaving of enabled steps of any sizes: at every point of it, if and only if no write's sum wraps |
| `Pipes.PipeLossless` | fs/pipe.c:40-85 | from a new pipe, over every interleaving without a wrapped sum, bytes read followed by bytes buffered are the bytes written, within the capacity |
| `Pipes.WriteGetsThroughIff` | fs/pipe.c:77-78 | there is a fill of the pipe at which a write is enabled if and only if it is no longer than the capacity or so long that the sum wraps; one that fits is, once a reader emptied the pipe |
| `Pipes.PipeFile.Read` | fs/pipe.c:40-69 | in place: the oldest bytes, in order, as many as asked for or present, and nothing at end of file |
| `Pipes.PipeFile.Write` | fs/pipe.c:71-85 | in place, for every count that gets past the wait: the whole new state; all bytes are appended if and only if the sum does not wrap |
| `Pipes.PipeFile.Poll` | fs/pipe.c:108-120 | readable exactly when a read is enabled, writable exactly when a one-byte write is |
| `Initrd.WriteImage` | tools/initrd.py:20-42 | the accumulating loop writes the count, one header per accepted file and the data in order |
| `Initrd.HeaderRoundTrip` | tools/initrd.py:17-18 | a packed header reads back its length and offset, and its name without truncation |
| `Initrd.ImageEntry` | fs/initrd.c:16-23 | entry j of a written image, read as the kernel reads it, is file j |
| `Initrd.ImageReadable` | fs/initrd.c:16-23 | every header and every file of a written image lies inside it |
| `Initrd.ContentsRoundTrip` | tools/initrd.py:23-42 | the bytes of each file come back unchanged |
| `Initrd.HeaderBytes` | tools/initrd.py:17-41 | the format byte by byte: header j at byte 2 + 68 j, 60 bytes of name (a slash, the path from its eighth byte on, zeros), then length and offset as little-endian words |
| `Initrd.DataBytes` | tools/initrd.py:36-42 | the count in the first two bytes, and byte i of file j behind all headers and the data of the files before it |
| `Initrd.KeptIs` | tools/initrd.py:25-27 | exactly the files whose paths have at most 60 characters are packed, in their order |
| `Initrd.Open` | fs/initrd.c:84-97 | the first entry with the name, none exactly when no entry has it |
| `Initrd.PathsToNames` | tools/initrd.py:31-32 | distinct paths in the directory have distinct names |
| `Initrd.OpenFinds` | fs/initrd.c:84-97 | in a written image a path opens file j if and only if it is file j's name, and with that file's bytes |
| `Initrd.SeekStays` | fs/vfs.c:188-197 | a seek never leaves the file; an absolute one succeeds if and only if it names a byte of it, and the end counts from the last byte |
| `Initrd.SeekIs` | fs/file.c:35-50 | every seek by a 32-bit distance, from all three origins: it goes to its target exactly if that is a byte of the file (the end counting from the last byte), otherwise -1 and no move; distance 0 from the current position answers that position |
| `Initrd.OpenFile.Read` | fs/initrd.c:25-44 | the bytes of this file at the position, up to its end, and the new position |
| `Initrd.OpenFile.Seek` | fs/file.c:35-50 | answer and position for all three origins |
| `Initrd.OwnBytesOnly` | fs/initrd.c:25-71 | whatever is read and sought, every chunk is a piece of this file |
| `Initrd.Run` | fs/initrd.c:25-71 | the position is never beyond the length |
| `Initrd.ChunksJoin` | fs/initrd.c:25-44 | reads of any sizes join to the file's bytes in order, all that was asked for up to its end |
| `LocalSockets.SendAppends` | net/local_socket.c:77-84 | a send appends its bytes to the queued stream |
| `LocalSockets.ReceiveTakes` | net/local_socket.c:61-74 | in the sender's memory the bytes a receive takes are exactly the front of the stream, also when the message is split and re-queued |
| `LocalSockets.WriteKeepsIff` | net/local_socket.c:81-82 | a client's write leaves the stream unchanged if and only if it misses all queued messages or writes the byte that is there |
| `LocalSockets.SameStreamIff` | net/local_socket.c:61-84 | two memories hold the same queued stream if and only if they agree on every byte in flight |
| `LocalSockets.StepConservesIff` | net/local_socket.c:54-84 | with a memory for each side: a step keeps received followed by queued equal to sent if and only if a receive finds the sender's bytes in the receiver's memory and no store changes a byte in flight |
| `LocalSockets.RunConservesIff` | net/local_socket.c:54-84 | over every run of sends, receives of any sizes and stores: at every point of it, if and only if every step is such |
| `LocalSockets.RunConserves` | net/local_socket.c:54-84 | threads of one process, whose memory is one: nothing is lost while buffers and stores stay off messages in flight |
| `LocalSockets.OwnByteReceived` | net/local_socket.c:66 | two processes nobody disturbs: the byte 7 is sent, and the receiver gets its own byte 0 |
| `LocalSockets.LocalSocket.Send` | net/local_socket.c:77-84 | in place: the message is queued by reference |
| `LocalSockets.LocalSocket.Receive` | net/local_socket.c:54-75 | in place: length, bytes copied inside the receiver's memory and remaining queue; the sender's memory changes only if it is the same |
| `Processes.CreateKeeps` | kernel/proc.c:474-490 | a new process gets a PID no live process has, and the partition of PIDs holds |
| `Processes.EndKeeps` | kernel/proc.c:462-473 | ending a process keeps it |
| `Processes.FirstEnded` | kernel/proc.c:443-447 | the first child that exited or was killed |
| `Processes.DeleteKeeps` | kernel/proc.c:428-432 | reaping frees exactly that PID and keeps the children lists |
| `Processes.StepSound` | kernel/proc.c:428-490 | nobody is reaped twice, nor before it ended, nor while still listed |
| `Processes.RunSound` | kernel/proc.c:314-490 | the same over every run |
| `Processes.ProcessesSound` | kernel/proc.c:314-490 | from boot: live and free PIDs are disjoint, duplicate-free and together all below the next one; each child is reaped at most once, after it ended |
| `ProcessHistory.CreateIs` | kernel/proc.c:474-490 | told from the list of past events alone: a new process is listed last among its parent's children and has the oldest free PID or the next one |
| `ProcessHistory.EndIs` | kernel/proc.c:462-473 | ending one changes its status only |
| `ProcessHistory.DeleteIs` | kernel/proc.c:428-432 | reaping one takes it out of the table and its parent's list, and its PID goes behind all free ones |
| `ProcessHistory.FirstEndedIs` | kernel/proc.c:443-447 | waiting finds the oldest child that has ended and is not reaped |
| `ProcessHistory.StepIs` | kernel/proc.c:428-490 | each step is possible and has its effect exactly as the history says |
| `ProcessHistory.TableIsPast` | kernel/proc.c:314-490 | over every run the table, the lists, the free PIDs and the next PID are those the history determines |
| `ProcessHistory.FromBoot` | kernel/proc.c:314-490 | the same from boot |
| `ProcessHistory.ListedIff` | kernel/proc.c:486-487 | a live process is in the children of a live process if and only if that is its parent |
| `Processes.ProcessManager.GeneratePid` | kernel/proc.c:319-328 | the oldest free PID, or the next one |
| `Processes.ProcessManager.Fork` | kernel/proc.c:474-490 | in place: the new record, its PID different from all live ones |
| `Processes.ProcessManager.Wait` | kernel/proc.c:434-460 | one round: the first ended child's PID and status and its removal, or no change |
| `Processes.ProcessManager.ProcessDelete` | kernel/proc.c:428-432 | in place: the child leaves the list and its PID goes to the end of the free list |

## Left out

- KernelHeap.Heaps.KMalloc: negative arguments; the loop of mm/heap.c:134-139, which marks pages used by the early allocator, passes indices beyond the bitmap and so changes nothing.
- Paging.Pages.MapPage: slot 0 of a directory must have a table, since `map_page` makes none there; a failed `kmalloc`, which panics, is the answer false.
- Paging.Pages.MapAddrFixed: ranges that run past the end of the address space; slot 0 as above.
- Paging.Pages.UnmapAddr: page-aligned ranges below the kernel, as the callers pass.
- CloneSpace.Spaces.ClonePgd: tables and directories come from a set of free pages that stands for `kmalloc(4096)` (`HeapTables.TablePagesUsable`); there must be enough of them and of free frames, which by `CloneSpace.CloneNeedsFrames` no copy can do without; the copy buffer of `clone_pgd` is not counted against them.
- PhysicalFrames.Frames.constructor: a memory of size 0, for which `pmm_init` makes an empty bitmap.
- CR3 and the TLB: the model says which directory an access goes through.
- Bitmaps.Bitmap.Scan: the scan starts at bit 0, as every caller does.
- Bitmaps.Bitmap.ScanFlip: the scan starts at bit 0, as every caller does.
- Ext2File.InodeIsFile: files with missing blocks and reads whose sum wraps past the end; for them `Ext2File.SyncInode`, `Ext2File.HolesVanish` and `Ext2File.ClampedIff` say what is read. Writing, directories, `ext2_open`, mounting and triple-indirect blocks are not modelled.
- Ext2Reads.ReadRun: what the code does once `kmalloc` answers NULL is not modelled beyond the answer -1; a fresh buffer is taken to hold the same bytes each time, which matters only for blocks the device does not have.
- BufferHeap.HeapServesIff: block sizes from 1024 bytes on, as ext2 has them, and nobody else allocating; for any other heap `BufferHeap.NoHeapServesMore` gives the bound.
- Ext2Device.ReadBlock: a read of which only some sectors are on the device transfers none of them.
- PageFaults.FaultHandler.PageFault: areas of 2 GiB or more; `anon` is the MAP_ANON flag, which no area with a file behind it has; the frame-buffer size is the 32-bit product the device computes.
- PageFaults.FaultHandler.LoadPage: the file's `read` is a function of the offset, which ext2's is by `MappedFiles.PageReadIs`; it never returns a negative count, as the modelled file systems do not.
- MappedFiles.MappedIsDisk: the page at file offset 0xFFFFF000, where the sum of `ext2_read` wraps; `MappedFiles.LoadIs` gives the answer there by the bytes returned, BusError exactly for none or a full page. Block sizes from 1024 bytes on, as ext2 has them.
- MappedFiles.MappingShowsFile: stores of the task into the mapping, and frames given back.
- PageFaults.FaultHandler.MapWhole: areas whose page count exceeds their size, which neither `vma_create` below 2 GiB nor `vma_map_file` makes.
- Areas.Task.DoMmap: only the anonymous path; the error paths of `vma_map_file` end in the unfinished `vma_dispose`.
- LinkedList.List.Insert: the length is an unbounded integer; `list_remove_index` and `list_insert_index`, which walk the list and call the modelled operations, are not part of this model. The scheduler, the areas, the sockets and the free PIDs are modelled on sequences, not on `LinkedList.List`.
- Scheduler: registers, the switch itself and signal delivery on resumption; the clock is an unbounded number given to each reschedule.
- Pipes.PipeFile.Read: closing is not modelled. The table of write operations (fs/pipe.c:91-93) names `pipe_file_read`; `Pipes.PipeFile.Write` is of `pipe_file_write`.
- LocalSockets.LocalSocket.Receive: the buffer does not overlap the bytes copied, as `memcpy` demands; binding, connecting and the backlog move no bytes and are not modelled. Messages and list entries are never freed (net/local_socket.c:62), which the model does not count.
- Processes: identities of process records are never reused; memory of reaped records and list entries, which are never freed (kernel/proc.c:323), and the PID counter's width are not modelled; children of a reaped parent stay, as in the code, without a parent that could reap them.
- Initrd.WriteImage: images whose counts or lengths do not fit the format's fields, on which the tool fails; files of 2 GiB or more.
- Device drivers, console, tty, number formatting, ELF loading, signal frames, tmpfs, devfs: not part of this model.
