# lateOS verified

lateOS is a small x86_64 kernel with its own C library.  This project models its four
stateful parts and proves what they are for.

**Virtual memory.**  Physical memory is a sequence of frames; a frame holds 512 page-table
words or 4096 bytes.  `AddressSpaces` (Paging) writes tables as `sys/paging.c` does.  The
tables of all tasks mean one flat map from positions in trees to entries (`PageModel.Inv`,
`WalkIsFlat`): every table frame has one position, so a write to one word changes one page
of one task.  Mapping a page, cloning a tree for fork and clearing it for exec are proved to
be updates of that map and of what the MMU finds, with every other task untouched.  Above
it stand two machines: `CowModel.Flat`, which shares pages on fork, and `Spaces`, where fork
copies everything at once.  Every run of the first reads like the same run of the second
(`CowRefinesEagerCopy`), and `Fault.ExecuteAll` carries this down to the tables in memory,
with the page-fault handler in between.  `EntryBits`, `Address` and `BootMap` cover the
64-bit words, the 9-bit indices and the kernel's direct map; `FrameList` the frame list;
`VmaList` the linked memory areas.  `Boot` runs the boot steps together, from the memory map
to a machine ready for its first task, and then any commands: the kernel's own tables stay
as boot left them, and every address space with a mapping in it leads from kernel addresses
to the frames of the direct map (`Boot.StartAndExecute`).

**The user heap.**  `UserHeap.Heap` is `malloc`, `free` and `morecore` over an array of
headers, with the circular list, the moving `freep` and the tail split.  `HeapModel` is the
same list as a value: the address-ordered decomposition of the free units into blocks that
do not touch, which is unique (`Canonical`).  `HeapPages` joins it with the page tables: what
malloc hands out lies in pages the kernel has mapped, fork keeps them mapped for parent and
child, and a store to a live block always takes effect.

**Processes.**  `ProcModel` is the process table as a state machine, one step for each
stretch of kernel code between two calls of `schedule()`; `Scheduler.ProcessTable` is the
code with its loops, proved to take exactly those steps.  `ProcMeaning` writes every step out
slot by slot: who is reaped, woken, put to sleep, who runs next.  `ProcInvariant` and `ProcReaders`
hold over every run; the size of the table is a parameter.  `ProcInherited` says when init
sleeps through a zombie child, and `ProcRuns` has runs from boot that reach the states where
a guarantee stops.  `Keyboard` is the line buffer.

**Encoders and decoders.**  `ExecStack` is the stack image exec builds and the startup code
that reads it, `PathNorm` the path normalisation and `PathExact` when it is right, `Tar` the
archive walk and directory listing.

A method whose `ok` is false (or whose result is `Halt` or `Halted`) met an empty frame
list, where the kernel dereferences NULL.  Ghost state (the flat map, the free blocks, the
bookkeeping of births and reaps) is not in the kernel.

Some promises do not hold on all inputs.  The exact conditions are proved:

- `BootMap.DirectMapIsWhole`: the direct map over N pages is whole and its four extra pages
  fit if and only if 1 <= N mod 512 <= 507.
- `BootMap.BootTables.MapNewFrame`: getNewPage keeps the direct map if slot 511 of the kernel's
  third-level table is present, a word that boot leaves as memory held it; otherwise it loses
  every page of other 2 MiB regions that the uncleared frame it links does not happen to map.
- `Fault.StoreIsTakenIff`: a store to a mapped page has its effect if and only if the page
  is writable or the address lies strictly inside an area (or in the stack area, up to one
  page above its start).
- `UserHeap.RefillIsSound`: the 32-bit sizes of malloc are right if and only if the request
  is at most 2^31 - 32 bytes.
- `Keyboard.LineBuffer.IntWrite`: the line count stays right for every key but a backspace
  over the newline of an unread line, and only for that one goes wrong.
- `PathExact.DerivedIsNormalIff`: the normalisation is right if and only if behind some point
  where the path is at the root every component is `..` or does not contain `..`, or the path
  names the root by an empty component.
- `Tar.WalkFindsMembersIff`: the walk finds exactly the members if and only if each is smaller
  than 2^32 - 512 bytes.
- `UserHeap.CoversIff`: where a free block is large enough for the wrapped count of units,
  malloc's result covers the request if and only if it is at most 2^36 - 32 bytes.
- `Fault.PageFault`: the handler faults in its own memcpy if and only if the address is valid,
  a table above it is missing, and the word found through frame 0 carries the tag bit.
- `ProcInherited.StepMissesIff` and `InitIsGuaranteedIff`: init comes to sleep over a zombie
  child if and only if a process that has one and whose parent is not init ends, by exit or
  kill, while init waits.
- `ProcInvariant.KillKeepsInvIff`: kill keeps the table in order if and only if the pid is
  in use and is not init, idle or the caller.
- `ProcReaders.KilledReaderStrandsLineIff` and `BootReadersIff`: a complete line is stranded
  if and only if a woken reader is killed while another reader sleeps and there are no more
  woken readers than lines.

## Model

| member | source | states |
|---|---|---|
| FrameList.FrameList.InitializeFreelist | sys/paging.c:63-98 | The list holds exactly the frames that start more than a page behind the kernel and end before the end of a usable range, none twice, their reference counts zeroed and no others touched; what is returned is base plus length of the last usable range, and where ranges ascend every free frame ends at or below it |
| FrameList.LastEndIs | sys/paging.c:96-103 | The end of memory is the end of the last range that is of kind 1 and not empty |
| FrameList.UsableMeans | sys/paging.c:71-76 | A frame is usable if and only if it starts more than a page behind the kernel and lies in a range of kind 1 that goes on behind it |
| FrameList.FrameList.AddRange | sys/paging.c:71-97 | The frames of one range join the list, no others |
| FrameList.FrameList.Append | sys/paging.c:76-92 | One frame joins the list at its end, or starts it |
| FrameList.FrameList.GetFreeFrame | sys/paging.c:106-111 | Returns the head, a frame never returned before, with reference count 1 |
| FrameList.FrameList.AddRef | sys/paging.c:295 | Only this frame's count changes, by one; mapped frames are not on the list |
| EntryBits.UserWordDecodes | sys/paging.c:220 | The stored word decodes to that frame, present, writable, user, untagged |
| EntryBits.CowWordDecodes | sys/paging.c:296 | Tagging a word clears writable, sets the tag and keeps frame and other flags |
| EntryBits.ZeroDecodes | sys/paging.c:208 | A zeroed page is a table of absent entries |
| EntryBits.StoredAddress | sys/paging.c:256 | Masking a stored word gives back an aligned address |
| EntryBits.SameTableSameFrame | sys/paging.c:141-143 | Different frame bits lead the walk to different tables |
| EntryBits.TestedBits | sys/idt.c:147 | The bits tested are the decoded flags, and tagging twice is tagging once |
| Address.AddressOfParts | sys/paging.c:141-143 | The four indices and the offset determine a 48-bit address |
| Address.PartsOfAddress | sys/paging.c:141-143 | Every choice of indices and offset belongs to an address |
| Address.SamePage | sys/paging.c:220 | All addresses of a page have the same indices |
| BootMap.BootTables.FirstTables | sys/paging.c:31-37 | Four fresh frames linked from slots 511, 510 and 0 |
| BootMap.BootTables.MapAll | sys/paging.c:39-51 | After the loop the first N pages translate to themselves |
| BootMap.BootTables.MapCurrentPageTable | sys/paging.c:24-28 | Writes one slot of the last table |
| BootMap.BootTables.MapBootTables | sys/paging.c:55-58 | The four words land in slots N+1 to N+4 modulo 512 of the last table |
| BootMap.BootTables.SetupPageTables | sys/paging.c:30-61 | What every page of the direct map translates to, for any amount of memory up to 1 GiB; slot 511 of the third-level table keeps what memory held before boot |
| BootMap.BootTables.MapNewFrame | sys/paging.c:163-203 | Mapping a frame of the direct map again changes no translation and takes no frame if slot 511 of the kernel's third-level table is present; otherwise slot 510 is linked to a frame nobody has cleared, and every page outside that frame's 2 MiB for which the word left there is absent is lost |
| BootMap.SameTranslation | sys/paging.c:173-191 | Memories with the same present bits and frames translate every page alike |
| BootMap.RelinkedLoses | sys/paging.c:163-171 | In the other case such a page, mapped before, makes the two memories differ: the first case is the only one that keeps the map |
| BootMap.DirectMapIsWhole | sys/paging.c:55-58 | Every page translates to itself and the boot tables are reachable when 1 <= N mod 512 <= 507, and they fit only then |
| BootMap.DirectMapIsBroken | sys/paging.c:55-58 | Otherwise a page in use is lost to the last boot table |
| BootMap.KernelWordDecodes | sys/paging.c:24-28 | The masked word of the direct map decodes to that frame, present and writable, not for user mode |
| BootMap.PagesInMeans | sys/paging.c:39-40 | The pages up to an address are the fewest that reach it |
| Boot.BuildTables | sys/paging.c:63-104 | The frame list followed by the kernel's tables up to the end of memory: free frames are usable, and the direct map is whole when the last table has room, reaching every free frame where ranges ascend |
| Boot.Start | sys/paging.c:63-104 | Boot as a whole leaves a machine that is a start of runs, whose shared kernel table is the one the kernel's root links, and in which, when the last table has room and ranges ascend, every free frame is found behind kernbase |
| Boot.WalkIsKernels | sys/paging.c:262-263 | In every state that meets the invariant the MMU walks the kernel's own tables as boot left them |
| Boot.KernelIsEverywhere | sys/paging.c:262-263 | From the root of any task that maps something a kernel address leads to the same entry as from the kernel's own root |
| Boot.StartAndExecute | sys/paging.c:262-306 | After boot and any sequence of commands, every page of the direct map is found at its kernel address in every address space that maps something |
| PageModel.WalkIsFlat | sys/paging.c:139-145 | Walking the tables of a task from its root is looking the page up in the flat map |
| PageModel.LinkTableKeepsInv | sys/paging.c:205-208 | Linking a fresh zeroed table keeps the trees disjoint and changes no translation |
| PageModel.SetLeafKeepsInv | sys/paging.c:220 | Writing one leaf word keeps the invariant and changes one page |
| PageModel.ClearLeafKeepsInv | sys/paging.c:326 | Zeroing one leaf word keeps the invariant and removes one page |
| PageModel.UnlinkKeepsInv | sys/paging.c:330-339 | Zeroing an upper word over an empty table keeps the invariant |
| PageModel.NewRootKeepsInv | sys/process.c:284-285 | A zeroed root adds a task without mappings |
| PageModel.DropRootKeepsInv | sys/process.c:470-471 | An empty root can leave the system |
| Paging.AddressSpaces.constructor | sys/paging.c:63-104 | The state at boot, without tasks, meets the invariant |
| Paging.AddressSpaces.TakeFrame | sys/paging.c:106-111 | The frame handed out is mapped nowhere and is no table |
| Paging.AddressSpaces.SetKernelSlot511 | sys/paging.c:263 | Only the kernel slot of one root changes |
| Paging.AddressSpaces.AttachTable | sys/paging.c:205-208 | A fresh zeroed table is linked at a position where none was |
| Paging.AddressSpaces.WriteLeaf | sys/paging.c:220 | One user page is mapped or re-flagged, nothing else |
| Paging.AddressSpaces.SetNewPagePDPTE | sys/paging.c:204-221 | Three fresh tables and one mapping; every other page as before |
| Paging.AddressSpaces.SetNewPagePDPE | sys/paging.c:223-235 | Two fresh tables and one mapping; every other page as before |
| Paging.AddressSpaces.NewLastTable | sys/paging.c:215-220 | One fresh table and one mapping; every other page as before |
| Paging.AddressSpaces.SetExistingPagePDPE | sys/paging.c:237-253 | One mapping, with a new last-level table only if there was none |
| Paging.AddressSpaces.SetExistingPagePDPTE | sys/paging.c:255-260 | One mapping below an existing second-level table |
| Paging.AddressSpaces.InitTaskPagetables | sys/paging.c:262-266 | The MMU afterwards finds the frame with flags 7 at this page of this task and what it found before at every other page of every task; slot 511 of this root holds the kernel's table, present, writable and user, and no other root's slot changes; no frame but fresh ones became a table |
| Paging.AddressSpaces.GetPTE | sys/paging.c:139-145 | With the upper levels present, the table found is the one the MMU uses for this address |
| Paging.AddressSpaces.CopyEntry | sys/paging.c:294-298 | Parent and child get the same tagged read-only entry, with reference counts still no lower than the number of mappings |
| Paging.RefCountsCover | sys/paging.c:295 | In every valid state the reference count of a frame is at least the number of entries, over all tasks, that map it |
| Paging.AddressSpaces.CopyLeafTable | sys/paging.c:293-299 | The innermost loop clones exactly one last-level table |
| Paging.AddressSpaces.CopyTable | sys/paging.c:272-305 | The outer loops clone exactly what lies below a table, into fresh tables of the child |
| Paging.AddressSpaces.CopySlot | sys/paging.c:287-300 | One turn of an outer loop clones what lies below one slot |
| Paging.AddressSpaces.NewRootTable | sys/process.c:284-285 | The root of a new task is fresh and maps nothing |
| Paging.AddressSpaces.CopyTables | sys/paging.c:268-306 | The child has exactly the parent's pages, read-only and tagged on both sides; slot 511 is equal; the child's tables are fresh; no other task translates differently |
| Paging.AddressSpaces.ClearEntry | sys/paging.c:323-326 | One page of the task is gone |
| Paging.AddressSpaces.ClearLeafTable | sys/paging.c:322-327 | The pages of one last-level table are gone, no others |
| Paging.AddressSpaces.ClearLink | sys/paging.c:330 | An emptied table leaves the tree |
| Paging.AddressSpaces.ClearTable | sys/paging.c:310-340 | Exactly what lies below a table is gone |
| Paging.AddressSpaces.ClearSlot | sys/paging.c:319-330 | Exactly what lies below one slot is gone |
| Paging.AddressSpaces.DeallocTask | sys/paging.c:308-341 | The MMU finds no user page from this root, slot 511 stays, every other task translates as before |
| Paging.AddressSpaces.WriteData | sys/idt.c:127 | A write to a data frame changes no translation |
| Paging.AddressSpaces.ForgetRoot | sys/process.c:470-471 | A reaped task's root is no longer one |
| CowModel.StepKeepsInv | sys/paging.c:293-299 | Every step keeps: shared frames read-only and tagged in all entries, writable frames mapped once, fresh frames mapped nowhere |
| CowModel.ForkReads | sys/paging.c:268-306 | After a shared fork parent and child read what they would after a copying fork |
| CowModel.StoreReads | sys/idt.c:125-131 | A store through a writable entry is seen by no other page |
| CowModel.CopyOnWriteReads | sys/idt.c:125-131 | The repair changes nothing any task reads |
| CowModel.StepReads | sys/idt.c:141-157 | Every step reads like the step of the machine that copies at fork |
| CowModel.CowRefinesEagerCopy | sys/paging.c:268-306 | Over every run every task reads at every mapped address what eager copying would give it |
| CowModel.WritableIsExclusive | sys/paging.c:293-299 | In every reachable state two entries for one frame are both read-only and tagged |
| Fault.BootIsGood | sys/paging.c:63-104 | The state at boot is a start of such runs |
| Fault.CreateSpace | sys/process.c:240-242 | A new root is a Create step |
| Fault.ForkSpace | sys/process.c:281-291 | A new root and copytables are one Fork step |
| Fault.MapFreshPage | sys/process.c:146-150 | Taking a frame and mapping it is one MapFresh step |
| Fault.CopyNewMemory | sys/idt.c:125-131 | Copying the faulting page is one CopyOnWrite step |
| Fault.ClearSpace | sys/paging.c:308-341 | deallocTask is one Dealloc step |
| Fault.ReapSpace | sys/process.c:463-472 | Reaping is one Reap step |
| Fault.CheckForVM | sys/idt.c:66-76 | True if and only if the address lies strictly inside some area |
| Fault.CheckValid | sys/idt.c:78-86 | True if and only if the address lies strictly between the stack area's lastAddress and one page above its beginAddress, or strictly inside some area |
| Fault.UpperPresentIsLinked | sys/paging.c:139-145 | The upper words are present if and only if the last-level table is in the tree |
| Fault.TakeForCopy | sys/idt.c:125-126 | The frame taken before the memcpy is gone from the list and nothing a task reads has changed |
| Fault.PageFault | sys/idt.c:141-157 | Kills the task exactly outside the areas and on unmapped pages that cannot grow; faults again exactly when misled by a word read through frame 0; otherwise makes exactly one repair step |
| Fault.StoreByte | sys/idt.c:141-157 | A permitted store is one Store step |
| Fault.ByteIsThere | sys/idt.c:141-157 | The byte stored, and no other byte of that frame or any other, has changed |
| Fault.ReadsAreMemory | sys/paging.c:139-145 | What a task reads is what lies in the frame the MMU finds for it in memory |
| Fault.UserStore | sys/idt.c:141-157 | A store goes straight through, or after one repair, or kills the task with memory untouched, or makes the handler fault, and when each happens |
| Fault.StoreIsTakenIff | sys/idt.c:66-86 | A store to a mapped page does what the eager machine does if and only if the page is writable or the address is valid |
| Fault.FirstByteOfAreaIsKilled | sys/idt.c:69 | After any fork of a task that maps the first page of an area, a store to its first byte is dropped, and what the task reads differs from the eager machine unless the byte was there already |
| Fault.SecondByteOfAreaIsTaken | sys/idt.c:69 | In the same state a store to the next byte is repaired and taken |
| Fault.KillsMeans | sys/idt.c:78-86 | When the handler kills, with the bounds of the areas written out |
| Fault.StackStoreIsTaken | sys/idt.c:82 | After any fork a store to a mapped stack page, up to one page above the beginning of the area, is one repair and the store |
| Fault.AboveStackIsKilled | sys/idt.c:82 | From there on, outside every area, it does nothing and the task is killed |
| Fault.StackGrows | sys/idt.c:148-153 | A store to an unmapped page strictly inside the stack area maps a fresh page and is taken |
| Fault.ElsewhereIsKilled | sys/idt.c:148-156 | A store to an unmapped page anywhere else kills the task |
| Fault.KernelMalloc | sys/process.c:599-609 | The heap area grows by whole pages, all writable, more than the bytes asked for, from where it ended |
| Fault.Execute | sys/idt.c:125-157 | Any command on the real tables takes the steps it stands for, spelled out command by command |
| Fault.ExecuteAll | sys/paging.c:268-306 | Any sequence of commands on the real tables leaves every task reading what eager copying would give it, unless frames run out or the handler faults |
| VmaList.CopyVMA | sys/process.c:258-275 | The child's list has the parent's areas in order, in new nodes only |
| VmaList.CheckNodes | sys/idt.c:66-76 | The search over the linked list decides membership in its areas |
| HeapModel.Canonical | libc/util_sys.c:94-119 | Two free lists over the same units are the same list |
| HeapModel.InsertIsOk | libc/util_sys.c:104-116 | Freeing keeps the list ascending, disjoint and without touching blocks |
| HeapModel.InsertCovers | libc/util_sys.c:104-116 | Freeing adds exactly the units of the block |
| HeapModel.TakeIsOk | libc/util_sys.c:166-173 | Taking a block keeps the list in order |
| HeapModel.TakeCovers | libc/util_sys.c:166-173 | Taking removes exactly the units handed out, all of them free before |
| HeapModel.ListIsDetermined | libc/util_sys.c:94-182 | The live blocks and the units granted determine the free list, block for block |
| HeapModel.FreeUndoesMalloc | libc/util_sys.c:94-119 | Giving a block back restores the list it was taken from, for the split and the exact fit |
| HeapModel.FreeKeepsHeap | libc/util_sys.c:94-119 | After free every unit from the kernel is in exactly one free or live block |
| HeapModel.GrantKeepsHeap | libc/util_sys.c:145-147 | The same after a refill, whose units are new |
| HeapModel.TakeKeepsHeap | libc/util_sys.c:166-175 | The same after malloc, whose block overlaps no live one |
| UserHeap.RelinkedIsInsert | libc/util_sys.c:104-116 | The two header writes of free turn the cycle into the cycle with the block inserted |
| UserHeap.UnlinkedIsTake | libc/util_sys.c:167-168 | The exact fit unlinks one node of the cycle |
| UserHeap.SplitIsTake | libc/util_sys.c:169-173 | The split shortens one node and leaves the tail outside the cycle |
| UserHeap.RefillIsSound | libc/util_sys.c:138-146 | Requests up to 2^31 - 32 bytes, and no others, get enough units from a refill |
| UserHeap.Heap.FindPlace | libc/util_sys.c:100-102 | The search ends, from any freep, at the node behind which the block belongs |
| UserHeap.Heap.Release | libc/util_sys.c:98-118 | The cycle is again address-ordered and coalesced, and only two headers have changed |
| UserHeap.Heap.Free | libc/util_sys.c:94-119 | The live block is free again and nothing else has changed hands |
| UserHeap.Heap.Sbrk | sys/process.c:599-609 | The area grows by bytes / 4096 + 1 pages from its old end |
| Address.PagesForMeans | sys/process.c:599-609 | One page more than the whole pages in the count of bytes, rounded toward zero for negative counts |
| UserHeap.Heap.AddRegion | libc/util_sys.c:145-147 | A region from the kernel joins the list and makes room for its size |
| UserHeap.Heap.Morecore | libc/util_sys.c:133-150 | A refill joins the list, leaving a block large enough |
| UserHeap.Heap.Start | libc/util_sys.c:159-162 | The first call leaves a cycle of base alone |
| UserHeap.Heap.Carve | libc/util_sys.c:166-176 | Exactly the units asked for, from the tail or the whole block |
| UserHeap.Heap.Scan | libc/util_sys.c:164-178 | Finds the first node behind freep that is large enough, if and only if there is one |
| UserHeap.Heap.Malloc | libc/util_sys.c:152-182 | Ends after at most one refill, made exactly when no free block is large enough; the result is first-fit, covers the request, and overlaps no live or free block |
| UserHeap.FirstFitMeans | libc/util_sys.c:163-178 | The block chosen is large enough, and none between freep and it is |
| UserHeap.RefillMeans | libc/util_sys.c:138-144 | A refill asks for the larger of the request and 1024 units, 16 bytes each, up to 2^27 - 1 units |
| UserHeap.UnitsMeans | libc/util_sys.c:157 | The units of a request are the fewest that hold it, and one for the header |
| UserHeap.HeapMeans | libc/util_sys.c:94-182 | Between calls: free blocks ascend and do not touch, live blocks overlap neither each other nor free ones, and the two together are exactly what came from the kernel |
| UserHeap.HeaderMeans | libc/util_sys.c:94-182 | Between calls the header of each free block holds its size and leads to the next one, the last back to base |
| UserHeap.Heap.UserWrite | libc/util_sys.c:175 | Writes to a live block outside its header leave the heap intact |
| UserHeap.CoversIff | libc/util_sys.c:157 | The count of units covers the request if and only if it has not wrapped round |
| UserHeap.MallocThenFree | libc/util_sys.c:94-182 | malloc then free without a refill restores the identical free list |
| UserHeap.PerformAll | libc/util_sys.c:94-182 | After any program of malloc and free that has given everything back, and without a refill, the free list is the identical one it began with |
| HeapPages.Grow | sys/process.c:599-609 | The area grows by whole writable pages and stays mapped, and writable if it was |
| HeapPages.MallocOnPages | libc/util_sys.c:152-182 | Every byte malloc hands out, and of every block in use, lies in a page the kernel has mapped, whatever fork has shared; what a refill adds is writable |
| HeapPages.StepKeepsArea | sys/paging.c:268-306 | No step but the task's own exec or end unmaps a page of its heap |
| HeapPages.ForkCopiesArea | sys/paging.c:268-306 | A fork gives the child the heap's pages at the same addresses |
| HeapPages.RunKeepsArea | sys/paging.c:268-306 | The heap stays mapped over every run in which the task neither execs nor is reaped |
| HeapPages.LiveStoreLives | sys/idt.c:66-86 | No store to a byte of a live block kills the task |
| HeapPages.StoreToBlock | sys/idt.c:141-157 | Such a store takes effect as in the eager machine, and is seen by no other page |
| ProcInvariant.BootIsOk | sys/process.c:41-47 | The table at boot meets the invariant |
| ProcMeaning.BootMeans | sys/process.c:41-47 | The first three slots run, init their parent; all others are free |
| ProcMeaning.WaitReaps | sys/process.c:473-492 | If the caller has a zombie child, wait, from its top or behind its schedule, frees the slot of the lowest one and goes on in user mode; no other slot changes, there is one zombie fewer and room for a fork |
| ProcMeaning.WaitSleeps | sys/process.c:484-490 | If it has none, the caller waits and the next running process is chosen |
| ProcMeaning.WaitpidReaps | sys/process.c:507-523 | The same as WaitReaps for the slot waitpid names |
| ProcMeaning.WaitpidSleeps | sys/process.c:507-523 | If that slot is no zombie child of the caller, the caller waits the first time and spins from then on |
| ProcMeaning.ForkMeans | sys/process.c:297-305 | The lowest free slot runs as a child of the caller; no other slot changes |
| ProcMeaning.ExitMeans | sys/process.c:451-461 | The caller turns zombie, its children go to init, its parent wakes if it waits, and nothing else changes in any slot; the next running process is chosen |
| ProcMeaning.KillMeans | sys/process.c:494-505 | The same for the process killed; the caller goes on |
| ProcMeaning.NextIsUp | sys/process.c:543-552 | schedule chooses the nearest running slot going round, or the same one if no other runs |
| ProcMeaning.SleepMeans | sys/process.c:533-541 | The caller hangs with n rounds to go; no other slot changes |
| ProcMeaning.SleepLasts | sys/idt.c:214-219 | A sleep of n rounds ends with the n-th and not before |
| ProcMeaning.TickMeans | sys/idt.c:221-226 | Nineteen ticks only count; the twentieth sets the process aside |
| ProcMeaning.RoundMeans | sys/idt.c:221-238 | When it runs again every sleeper counts down by one and runs at zero, no other slot changes, and the count starts again |
| ProcMeaning.ReadMeans | sys/keyboard.c:183-202 | A reader with a line pending takes one and goes on, without one it sleeps |
| ProcMeaning.EnterMeans | sys/keyboard.c:153-160 | One more line, and the lowest sleeping reader runs, no other |
| ProcInvariant.DieKeepsTable | sys/process.c:451-461 | exit and kill keep every parent alive and leave no waiter asleep over a zombie |
| ProcInvariant.ReapKeepsTable | sys/process.c:475-479 | A reaped slot is nobody's parent |
| ProcInvariant.ForkKeepsTable | sys/process.c:297-305 | The slot fork fills was nobody's parent |
| ProcInvariant.StepKeepsInv | sys/process.c:451-552 | Every step of every process keeps the invariant |
| ProcInvariant.RunKeepsInv | sys/process.c:451-552 | It holds in every state of every run |
| ProcInvariant.AncestorsEndAtInit | sys/process.c:451-461 | Following ppid from a slot in use reaches init within as many steps as the process is old, so there is no cycle |
| ProcInvariant.Guarantees | sys/process.c:473-523 | In every state a run from boot reaches: the current process is running, parents live and lead to init, free slots have no children, waiters other than init have no zombie child they wait for, each process is reaped at most once |
| ProcInvariant.KillKeepsInvIff | sys/process.c:494-505 | For every slot kill keeps all this if and only if the process is in use and is not init, idle or the caller |
| ProcInvariant.FreeSlotKilled | sys/process.c:494-505 | Killing a free slot makes a zombie nobody created |
| ProcInvariant.SelfKillOrphans | sys/process.c:494-505 | A process that kills itself can fork a child with a dead parent |
| ProcInherited.DieMisses | sys/process.c:453-460 | What exit and kill do to init: it is left asleep over a zombie exactly when the process had one and another parent |
| ProcInherited.StepMissesIff | sys/process.c:451-523 | Over all steps, init comes to sleep over a zombie child if and only if the step is such an exit or kill |
| ProcInherited.RunMissesIff | sys/process.c:451-523 | The same over whole runs from any state in order |
| ProcInherited.InitIsGuaranteedIff | sys/process.c:451-523 | From boot on, init has the waiters' guarantee in exactly the runs without such an exit or kill |
| ProcRuns.InitMissesInheritedZombie | sys/process.c:453-459 | A run from boot after which init sleeps in wait() with a zombie child |
| ProcInvariant.NextIsRunning | sys/process.c:543-552 | While any process runs, schedule selects a running one |
| ProcInvariant.NextIsNearer | sys/process.c:545-552 | Each schedule brings a running process strictly nearer |
| ProcInvariant.BoundedBypass | sys/process.c:543-552 | A process that stays running becomes current within MAX - 1 calls of schedule, whatever the others do |
| ProcReaders.StepKeepsReaders | sys/keyboard.c:94-96 | While a reader sleeps, woken readers are at least as many as complete lines |
| ProcReaders.RunKeepsReaders | sys/keyboard.c:183-202 | The same over every run that kills no woken reader |
| ProcReaders.NoLineWaitsForSleepers | sys/keyboard.c:183-202 | From boot on, no complete line is pending while all readers sleep |
| ProcReaders.KilledReaderStrandsLineIff | sys/process.c:494-505 | Killing a woken reader breaks this if and only if a reader sleeps and the woken readers are as many as the lines |
| ProcReaders.StepKeepsReadersIff | sys/keyboard.c:183-202 | Every step keeps it unless it is such a kill, which breaks it |
| ProcReaders.RunKeepsReadersIff | sys/keyboard.c:183-202 | It holds throughout exactly the runs without such a kill |
| ProcReaders.BootReadersIff | sys/keyboard.c:183-202 | The same for runs from boot |
| ProcRuns.StrandingIsReached | sys/process.c:494-505 | A run from boot to a state where such a kill is possible |
| ProcRuns.KillStrandsLine | sys/process.c:494-505 | After it a line is pending, a reader sleeps, and none is woken |
| Scheduler.ProcessTable.constructor | sys/process.c:41-47 | The first table is Boot |
| Scheduler.ProcessTable.NewPID | sys/process.c:35-39 | The first free slot, or -1 if there is none |
| Scheduler.ProcessTable.Schedule | sys/process.c:543-552 | The next running slot going round, or the same one |
| Scheduler.ProcessTable.ReparentChildren | sys/process.c:453-457 | Every child of the process, and no other, becomes init's |
| Scheduler.ProcessTable.Bury | sys/process.c:495-503 | Zombie, children to init, parent woken if it waits |
| Scheduler.ProcessTable.ExitCall | sys/process.c:451-462 | The Exit step, invariant kept |
| Scheduler.ProcessTable.KillCall | sys/process.c:494-505 | What kill does to any slot, and for exactly which ones the invariant is kept |
| Scheduler.ProcessTable.ForkCall | sys/process.c:297-305 | The Fork step, invariant kept |
| Scheduler.ProcessTable.FindZombie | sys/process.c:475-481 | The first zombie child, or -1 if there is none |
| Scheduler.ProcessTable.WaitTurn | sys/process.c:473-492 | wait between two schedules: the steps WaitReaps and WaitSleeps write out |
| Scheduler.ProcessTable.WaitpidTurn | sys/process.c:507-523 | waitpid between two schedules: the steps WaitpidReaps and WaitpidSleeps write out |
| Scheduler.ProcessTable.ReadTurn | sys/keyboard.c:183-201 | One turn of the reading loop, as to the table and the line count |
| Scheduler.ProcessTable.SleepCall | sys/process.c:533-541 | The Sleep step, invariant kept |
| Scheduler.ProcessTable.TaskTimer | sys/idt.c:214-219 | Every sleeper counts down once and runs at zero |
| Scheduler.ProcessTable.TimerTick | sys/idt.c:221-226 | Every twentieth tick reschedules |
| Scheduler.ProcessTable.WakeProcess | sys/keyboard.c:94-96 | Only the first sleeping reader wakes |
| Scheduler.ProcessTable.Enter | sys/keyboard.c:153-160 | One more line, one reader woken |
| Scheduler.ProcessTable.Continue | sys/process.c:484-490 | How each blocked process goes on |
| Scheduler.ProcessTable.Perform | sys/process.c:451-552 | The code takes exactly the steps of the state machine and keeps its invariant |
| Keyboard.LineBuffer.constructor | sys/keyboard.c:123-136 | The buffer starts empty |
| Keyboard.LineBuffer.Append | sys/keyboard.c:177-178 | One more character pending |
| Keyboard.LineBuffer.EraseLast | sys/keyboard.c:147-149 | The last character typed is gone, wherever it came from |
| Keyboard.LineBuffer.IntWrite | sys/keyboard.c:138-181 | The character each key adds, plain or shifted, or erases, what becomes of the modifiers, and for which single case the line count goes wrong |
| Keyboard.LineBuffer.ReadLine | sys/keyboard.c:183-202 | Hands out the first pending line, whole and once, and keeps the rest |
| Keyboard.LineSplits | sys/keyboard.c:187-197 | The first newline splits the pending text and its line count |
| ExecStack.DecodeLow | crt/crt1.c:20 | The low bytes of a stored word read back as its value |
| ExecStack.Memcpy | sys/process.c:53-60 | The target gets what the source range held before, overlapping or not, and nothing else changes |
| ExecStack.Strlen | sys/string.c:35-44 | The number of characters before the NUL |
| ExecStack.PutWord | sys/process.c:411-412 | One 64-bit word is stored; nothing above it changes |
| ExecStack.PushString | sys/process.c:383-385 | A string of l bytes takes l words and is stored with its NUL |
| ExecStack.PushStrings | sys/process.c:381-387 | All strings lie below each other and the pointers kept lead to them |
| ExecStack.PushPointers | sys/process.c:397-402 | A NULL-terminated vector of those pointers |
| ExecStack.SetRSPandExec | sys/process.c:380-412 | The finished stack is the image of both lists; nothing above the stack changes |
| ExecStack.Start | crt/crt1.c:15-34 | argv and env are filled with the words the two loops find |
| ExecStack.ImageReads | crt/crt1.c:18-29 | Read as the startup code reads it, an image gives argc, every argument, every environment string, and NULL behind them |
| ExecStack.ImageIsUnambiguous | crt/crt1.c:18-29 | No memory is the image of two different pairs of lists |
| ExecStack.StringsApart | sys/process.c:380-395 | No string overlaps another string, the vectors or the top |
| ExecStack.ExecThenStart | sys/process.c:380-412 | exec followed by the startup code: main gets the lists exec was given |
| PathNorm.SplitJoins | sys/tarfs.c:63-85 | Splitting at slashes and joining gives the path back |
| PathNorm.RelativeMeans | sys/tarfs.c:66-70 | A relative path is resolved component by component from the current directory |
| PathNorm.ResolveLaws | sys/tarfs.c:73-82 | A component enters a directory, `..` behind it leaves it again, and at the root it stays |
| PathNorm.NormalIsStable | sys/tarfs.c:63-85 | A normal form has no `..` component and is its own normal form |
| PathNorm.BackLeaves | sys/tarfs.c:75-80 | Erasing backwards over `..` leaves one component, or stays at the root |
| PathNorm.DerivedIsNormal | sys/tarfs.c:63-85 | The pass computes the normal form, and the write position stays at -1 or above, whenever `..` is only a whole component |
| PathNorm.LastComponentDecides | sys/tarfs.c:53-56 | Below clean directories the result is right if and only if the last component is `..` or does not contain it |
| PathNorm.EveryPrefixDecides | sys/tarfs.c:63-85 | The result is right on a path and on all the paths it begins with if and only if `..` is only a whole component in it |
| PathExact.PassUnclean | sys/tarfs.c:75-80 | A component with `..` inside it costs at least one directory of what was written |
| PathExact.PassTracks | sys/tarfs.c:73-82 | For every path, what is written against the true stack: equal behind a clean stretch from the root, otherwise shorter in every directory |
| PathExact.DerivedIsNormalIff | sys/tarfs.c:63-85 | For every path: the result is right if and only if the components are clean behind some point where the path is at the root, or the path names the root in the end |
| PathExact.BufferIsNormalIff | sys/tarfs.c:83-84 | What the buffer holds is the normal form on exactly those paths |
| PathExact.LeavingMendsAtRoot | sys/tarfs.c:75-80 | An unclean component left again at the root, as in `x../..`, does no harm |
| PathExact.LeavingDoesNotMendBelow | sys/tarfs.c:75-80 | Below a directory, as in `d/x../..`, it does |
| PathNorm.EraseComponent | sys/tarfs.c:77-78 | The erasing loop goes back to the slash before the component, or to -1 |
| PathNorm.CopyPath | sys/tarfs.c:66-70 | file_path is the path behind the current directory, without its first slash, or an absolute path without its own |
| PathNorm.DeriveRelative | sys/tarfs.c:63-85 | The buffer ends up holding what the pass derives, as a C string: for a clean path the directory reached from the current one component by component, for a clean absolute path the one reached from the root |
| Tar.GetSize | sys/tarfs.c:16-24 | The value of the eleven octal digits modulo 2^32 |
| Tar.OctalOfDigits | sys/tarfs.c:16-24 | A number written in octal digits is read back |
| Tar.StepIsRight | sys/tarfs.c:34-39 | The step is header and data in whole blocks if and only if the size is below 2^32 - 512 |
| Tar.TakenMeans | sys/tarfs.c:34-39 | What a member takes is one header block and the fewest blocks that hold its data |
| Tar.MoveTarfsHeader | sys/tarfs.c:34-39 | Moves on by the step of the header it stands on |
| Tar.InitTarfs | sys/tarfs.c:41-51 | Ends, having recorded exactly the headers the walk meets, in order |
| Tar.WalkFindsMembers | sys/tarfs.c:41-51 | For every archive these are exactly the members' headers, in order |
| Tar.WalkFindsMembersIff | sys/tarfs.c:41-51 | For every sequence of members of any size the walk finds exactly their headers, and ends, if and only if each is smaller than 2^32 - 512 bytes |
| Tar.DataIsThere | sys/tarfs.c:41-51 | At each recorded header lies the member, and its size field leads to exactly its data |
| Tar.EndBlockIsRecorded | sys/tarfs.c:41-51 | A zero end block is recorded as one more header |
| Tar.Directory.ReadDir | sys/tarfs.c:165-185 | Each call hands out the next entry behind the first one, while there is one |
| Tar.Directory.ListAll | sys/tarfs.c:165-185 | Calling until nothing is left lists every entry but the first, each once, in order |
| Tar.InsideMeans | sys/tarfs.c:170-174 | A name counts as inside a directory when the first two characters agree, or the directory is the root |
| Tar.AllButFirst | sys/tarfs.c:165-185 | What is listed: among the first 32 names exactly those inside that have one inside before them, in order |
| Tar.RestIsBelow | sys/tarfs.c:175-180 | Of a name that begins with the directory's, what is handed out is the rest |

## Left out

- Assembly, CR3 and the TLB, IDT, GDT and TSS, port I/O, the stack switch in `schedule`, `fork` and `createNewTask`: hardware.  `schedule` chooses the next current process; user stores are the only user memory writes.
- Kernel-mode writes into user buffers: whether they fault depends on a CPU setting outside the source.
- Frames never come back: `free` in sys/paging.c is empty, so nothing is said about reuse.
- The address spaces and the process table are separate machines; that a slot's `pml4e` is a root of the first is not stated.
- `getNewPage` is a fresh frame already in the direct map everywhere else than in `MapNewFrame`, the first case of its contract; `kmalloc` contiguity is not part of this model.
- BootMap.BootTables.MapNewFrame: the frame is one the direct map has, as `Boot.Start` gives for every free frame, so the branches for missing tables below are not there; its own writes are taken to reach the frames they name.
- Paging.AddressSpaces.CopyTable: the three outer loops of copytables are one method with the level as a parameter, as they differ in nothing else; ClearTable does the same for deallocTask.
- Paging.AddressSpaces.GetPTE: states nothing when an upper word is absent; the kernel then reads through frame 0, and `PageFault` takes the word found there as a parameter.
- Paging.AddressSpaces.CopyEntry: reference counts are unbounded integers; the kernel's `int` would need 2^31 mappings of one frame.
- FrameList.FrameList.InitializeFreelist: the ranges are aligned, disjoint and covered by `pagelist`, as the boot loader's memory map has them; the search for the module tag 0x9001 is left out.
- CowModel.CowRefinesEagerCopy: user pages are bytes; registers and the values programs compute are not modelled.
- Fault.PageFault: a fault in the handler's own memcpy ends the model's run (the nested handlers are not followed); takes the areas as a parameter; the lists exec leaves (old nodes stay linked) are not followed across exec.
- Fault.KernelMalloc: the heap area ends on a page boundary and stays below the kernel's half, as exec sets it up.
- UserHeap.Heap.Malloc: requests above 2^31 - 32 bytes, the exact bound of `RefillIsSound`, only where a free block is large enough for their count of units and the count has not wrapped to 0; `refuses` stands for a failing sbrk, which the kernel never reports.  The `base` header lies below the heap, as the program's data does.
- UserHeap.MallocThenFree: requests up to 2^31 - 32 bytes, as a refill may be needed; the same for PerformAll and HeapPages.MallocOnPages.
- UserHeap.Heap.Morecore: unit counts whose 32-bit refill is large enough, the second half of the same bound.
- UserHeap.Heap.Free: the argument is a live block; a second free of the same block is outside the contract, as for C.
- Scheduler.ProcessTable.Perform: the runs limit kill to slots in use other than init, idle and the caller, the exact condition of `KillKeepsInvIff`, fork to tables with a free slot, which the kernel does not test, and waitpid to pids inside the table; `name`, `curr_dir` and descriptors are not in the table's model.
- ProcInvariant.Guarantees: init is excepted from the waiter guarantee; `ProcInherited.InitIsGuaranteedIff` has its exact condition.
- Scheduler.ProcessTable.ForkCall: needs a free slot; with none the kernel goes on with slot -1, outside the table.
- Scheduler.ProcessTable.KillCall: the pid is a slot of the table; the kernel does not test this.
- Scheduler.ProcessTable.WaitpidTurn: the pid is a slot of the table; the kernel does not test this.
- Scheduler.ProcessTable.Continue: takes the outcome of the buffer scan as a parameter, as ReadTurn does.
- Scheduler.ProcessTable.ReadTurn: whether the scan meets a newline is a parameter; `Keyboard.LineBuffer.ReadLine` shows it does while the line count is right.
- Keyboard.LineBuffer.ReadLine: the line count is right on entry; after the one key that makes it wrong (see IntWrite) the scan can run past the last newline.
- Keyboard.LineBuffer.Append: the buffer has room, which the kernel does not test.
- Keyboard.LineBuffer.IntWrite: scan code 58 reads behind the 58-entry table, and the 4096-byte buffer has no bounds check; both are preconditions.
- ELF content copying, `execvpe`'s argument gathering and `setFileAddress`: the stack image starts at `setRSPandExec` with its argument and environment arrays filled.
- ExecStack.Start: at most 20 arguments and 100 environment strings; the startup code does not test this.
- ExecStack.ExecThenStart: at most 20 arguments and 100 environment strings of at most 99 characters, the sizes of the arrays; stack pages are mapped.
- BootMap.BootTables.SetupPageTables: memory up to 1 GiB, as for MapAll, Boot.BuildTables and Boot.Start; beyond it the virtual address wraps round.
- Boot.StartAndExecute: the kernel's own tables do not change after boot, the first case of `MapNewFrame`; a root maps the kernel from its first user page on, as `initTaskPagetables` links slot 511.
- PathNorm.DeriveRelative: the part about the current directory asks that its components do not contain `..`; for others `PathExact.DerivedIsNormalIff` decides.  The buffer has one cell before its start and two behind the longest path; paths that would push the write position below -1 (such as `....`) are outside it.
- Tar.GetSize: the kernel's signed overflow is taken as wrap-around.
- Tar.InitTarfs: the walk moves on at every header (a size of 2^32 - 512 would make it stand still) and meets at most 200 of them, the size of `headers`; the image ends at its last member.
- `openDirFile`, `openTarfsFile`, `readTarfsFile`, `toBinaryFile`, `chdir`, `kprintf`, the string functions, system-call stubs, environment helpers and the programs under bin: easy members, or nothing that reasons across functions.
