# SOS core, modelled in Dafny

SOS is the user-level operating-system server of a student seL4 system
(COMP9242, aarch64). It runs as the root task. It owns every frame of
untyped memory and gives out processes' address spaces, page tables and
stacks. It pages memory out to a swap file with a clock algorithm. It
keeps a heap of timers, and it serves system calls (brk, mmap, munmap,
open, read, write, close) from a queue of coroutines. This project
models that core in Dafny 4.11 and proves properties of the model:

- the frame table and its untyped free list (`frametable.dfy`);
- the regions of an address space (`addrspace.dfy`);
- the four-level shadow page table and the page-fault handler (`pagetable.dfy`);
- `sos_map_frame`, the retry loop that builds missing paging structures (`mapping.dfy`);
- the clock replacement and the swap file (`swap.dfy`);
- the timer heap of libclock (`clock.dfy`);
- the coroutine queue and the memory system calls (`syscall.dfy`);
- the ELF segment loader (`elf.dfy`);
- the initial process stack (`procstack.dfy`);
- the console device's read path (`console.dfy`);
- uio records and `copystr` (`uio.dfy`);
- reference-counted vnodes and open files (`refcount.dfy`, `vnode.dfy`, `openfile.dfy`);
- the file system calls (`filesyscall.dfy`);
- the process table lookup (`proc.dfy`).

`common.dfy` holds what they share: `Option`, the 64-bit word type
`Word`, page arithmetic, the seL4 error codes and `Layout`, the
virtual-memory layout constants.

The C code's state-changing parts are modelled as classes over arrays,
`seq`s and `map`s, one method per C function. Each such method is proved
against a specification function of the old state. Pure parts (bit
macros, address arithmetic, the ordering of regions and timers) are
functions, and lemmas state their properties. Where the C code has a
defect, the model keeps a member that does what the code does as written.
A lemma exhibits the defect. A corrected member carries the intended
property and is the one the rest of the model uses (see "## Findings").

Calls into code outside the core are parameters of the methods that make
them. That covers seL4 invocations, `ut_alloc`/`alloc_retype`, `cspace_*`,
`malloc`, the NFS-backed `VOP_*` operations, `vfs_open`, the serial
driver, timestamps, and coroutine yield/resume. Their results are
parameters too: a success flag, a returned object, or an error code.
## Model

| member | source | states |
|---|---|---|
| FrameTable.Mask | projects/aos/sos/src/frametable.h:12-13 | `1 << bit` is a non-zero mask |
| FrameTable.SetBit | projects/aos/sos/src/frametable.h:12 | FRAME_SET_BIT leaves the bit set and changes no other bit |
| FrameTable.ClearBit | projects/aos/sos/src/frametable.h:13 | FRAME_CLEAR_BIT leaves the bit clear and keeps every other bit |
| FrameTable.ClearBitIsAndNot | projects/aos/sos/src/frametable.h:13 | the bit-level contract of ClearBit is the macro's `flag &= ~(1 << bit)` |
| FrameTable.GetPid | projects/aos/sos/src/frametable.h:14-15 | GET_PID is below 256 and is exactly the PID field 0xFF0 moved down four bits |
| FrameTable.SetPidAsWritten | projects/aos/sos/src/frametable.h:16 | SET_PID as written only ORs bits in: every old bit stays set, and the low nibble (PIN, memory type) is untouched |
| FrameTable.SetPid | projects/aos/sos/src/frametable.h:16 | corrected SET_PID: every bit outside the PID field is kept |
| FrameTable.SetPidAccumulates | projects/aos/sos/src/frametable.h:15-16 | a frame given to process 1 and then to process 2 reads back as owned by process 3 |
| FrameTable.SetPidThenGetPid | projects/aos/sos/src/frametable.h:15-16 | after the corrected SET_PID, GET_PID returns the pid's low eight bits |
| FrameTable.ClockBitAliasesPid | projects/aos/sos/src/frametable.h:11-16 | with CLOCK = 4 the reference bit is the pid's lowest bit: an odd pid marks the frame referenced, and clearing the bit turns process 1 into process 0 |
| FrameTable.ClearClockKeepsPid | projects/aos/sos/src/frametable.h:11-15 | with the reference bit outside the PID field, clearing it never changes the owner |
| FrameTable.SetClockKeepsPid | projects/aos/sos/src/frametable.h:11-15 | setting the reference bit never changes the owner |
| FrameTable.TablePages | projects/aos/sos/src/frametable.c:73-74 | n_pages is the least number of pages that holds one record per frame |
| FrameTable.TablePagesLeaveRoom | projects/aos/sos/src/frametable.c:73-103 | with two or more frames the table uses at least one frame and leaves at least one for the untyped list |
| FrameTable.FrameTable.constructor | projects/aos/sos/src/frametable.h:25-34 | the zeroed static frame_table, describing `nFrames` frames |
| FrameTable.FrameTable.Initialize | projects/aos/sos/src/frametable.c:63-111 | completes iff every retype succeeds; then the first n_pages frames are table records and the rest form the untyped list in index order, the last linked to itself, with `max = n - n_pages + 1` |
| FrameTable.FrameTable.LinkUntyped | projects/aos/sos/src/frametable.c:95-108 | frames from first_available_frame on are chained in index order into a valid untyped list |
| FrameTable.TableRecord | projects/aos/sos/src/frametable.c:86-90 | a table frame holds its untyped object and capability and has no successor |
| FrameTable.UntypedRecord | projects/aos/sos/src/frametable.c:97-100 | an untyped-list frame has no untyped object and links to its successor |
| FrameTable.InitialRecordsPinned | projects/aos/sos/src/frametable.c:88-100 | after initialisation every frame is pinned; table frames are USED and the others UNTYPE |
| FrameTable.FrameTable.FrameAlloc | projects/aos/sos/src/frametable.c:113-172 | a failed retype gives -1 and a NULL address and changes nothing; otherwise the head of the untyped list is popped, mapped at FRAME_BASE + 4096·page, zero-filled, recorded by Allocated, and `max` covers it |
| FrameTable.Allocated | projects/aos/sos/src/frametable.c:156-167 | the allocated record holds the new object and capability and has no successor |
| FrameTable.AllocatedIsPinnedUsed | projects/aos/sos/src/frametable.c:157-167 | an allocated frame is pinned and USED, and keeps every flag bit it had |
| FrameTable.FrameVaddr | projects/aos/sos/src/frametable.c:148 | a frame's server address is page-aligned and at or above FRAME_BASE |
| FrameTable.FrameTable.FrameFree | projects/aos/sos/src/frametable.c:208-239 | halts iff the index is outside the table; otherwise the frame is recorded as Freed and pushed on the untyped list, and num_frees drops by one |
| FrameTable.Freed | projects/aos/sos/src/frametable.c:215-220 | a freed record has no object, capability or address and links to the old head |
| FrameTable.FreedIsPinnedUntyped | projects/aos/sos/src/frametable.c:217-234 | a freed frame is pinned, and its memory-type bits are the old ones with UNTYPE (bit 0) ORed in: a frame frame_alloc marked USED (0x3) still reads USED, because free_to_untype only ORs and never clears the other bit |
| FrameTable.FreedKeepsFlagBits | projects/aos/sos/src/frametable.c:217-234 | frame_free only sets bits of the flag word: every bit set before the free (the owner's pid, the reference bit) is still set after it |
| FrameTable.FreedReadsFlag | projects/aos/sos/src/frametable.c:211-220 | of the record it frees, frame_free keeps only the flag word: two records with the same flag free to the same record |
| FrameTable.FrameTable.FreeThenAlloc | projects/aos/sos/src/main.c:548-565 | a frame that is freed is the very next one frame_alloc hands out, and the untyped list is as before |
| FrameTable.FrameTable.FrameNFree | projects/aos/sos/src/frametable.c:198-206 | frame_n_free frees the run head first: its k-th frame becomes a Freed record linked to the frame freed before it (the first to the old list head), every frame outside the run keeps its record, the run lies on the untyped list in reverse order, num_frees drops by the run's length, and contents, max and first_available_frame are unchanged |
| FrameTable.FreedAllOutside | projects/aos/sos/src/frametable.c:198-206 | freeing a run frame by frame leaves the record of every frame outside the run as it was |
| FrameTable.FreedAllIndex | projects/aos/sos/src/frametable.c:198-206 | freeing a run of distinct frames makes its k-th frame a Freed record linked to the frame freed before it, the first to the old head |
| FrameTable.PushAllReverses | projects/aos/sos/src/frametable.c:186-205 | pushing a run on the list frame by frame leaves it there reversed |
| FrameTable.FrameTable.LinkAlloc | projects/aos/sos/src/frametable.c:182 | `frames[frame].next = frame_alloc(NULL)` extends the run by the next untyped frame, or stores -1 |
| FrameTable.Attempts | projects/aos/sos/src/frametable.c:176-181 | frame_n_alloc asks for `nframes` frames, and at least one |
| FrameTable.FrameTable.FrameNAlloc | projects/aos/sos/src/frametable.c:174-196 | -1 iff one of the first Attempts(nframes) retypes fails. On success the run is the front of the old untyped list, linked in order and ending in -1, its j-th frame an Allocated record of the j-th retype, every other frame unchanged, num_frees unchanged. On failure every frame taken is a Freed record again (its allocated flag bits kept), back on the untyped list in reverse order, every other frame unchanged, num_frees down by the frames taken. Either way the frames taken are zero-filled, max never decreases and covers them, and the address is that of the first frame |
| FrameTable.FrameTable.FillRun | projects/aos/sos/src/frametable.c:180-194 | the loop of frame_n_alloc: complete when Attempts(nframes) frames are handed out; otherwise the next retype failed and the run so far is as Extended describes it |
| FrameTable.FrameTable.AllocNext | projects/aos/sos/src/frametable.c:182-193 | one round of the loop: -1 exactly when this round's retype fails, and then nothing changes; otherwise the run grows by the next frame of the untyped list |
| FrameTable.FrameTable.AllocRest | projects/aos/sos/src/frametable.c:176-196 | frame_n_alloc after its first frame: success iff no later retype fails, leaving the run allocated; otherwise the frames taken are freed again, and the untyped list holds them in reverse order in front of the rest |
| FrameTable.FrameTable.GiveBack | projects/aos/sos/src/frametable.c:183-191 | the clean-up of a failed frame_n_alloc: the run taken so far is freed (FreedAll), pushed back in reverse order, and num_frees drops by its length; contents and max are unchanged |
| FrameTable.AllocLink | projects/aos/sos/src/frametable.c:156-162 | one `frames[prev].next = frame_alloc(NULL)`: the new frame is an Allocated record, the previous frame of the run links to it, and nothing else changes |
| FrameTable.AllocsOutside | projects/aos/sos/src/frametable.c:174-196 | handing out a run leaves the record of every frame outside it as it was |
| FrameTable.AllocsIndex | projects/aos/sos/src/frametable.c:174-196 | the j-th frame of a handed-out run holds the j-th retyped object and links to the next frame of the run, the last to -1 |
| FrameTable.AllocsHandOut | projects/aos/sos/src/frametable.c:174-196 | frame by frame, a handed-out run satisfies HandedOut: frames outside it unchanged, frames inside it Allocated and linked in order |
| FrameTable.AllocsGiveBack | projects/aos/sos/src/frametable.c:183-191 | frame by frame, a run handed out and freed again satisfies GivenBack: frames outside it unchanged, frames inside it Freed records of their allocated records |
| FrameTable.Zeroed | projects/aos/sos/src/frametable.c:163 | the contents after zero-filling a set of frames: those frames read all zero, every other frame keeps its contents |
| FrameTable.ZeroedStep | projects/aos/sos/src/frametable.c:163 | zero-filling one more frame is the same as zero-filling the larger set |
| FrameTable.ReversePrefixSameFrames | projects/aos/sos/src/frametable.c:183-191 | a failed frame_n_alloc leaves the untyped list holding the same frames as before |
| AddrSpace.CreateRegionAsWritten | projects/aos/sos/src/addrspace.c:14-46 | create_region with size_t wrap-around: a created region is page-aligned in base and size |
| AddrSpace.CreateRegionAsWrittenWraps | projects/aos/sos/src/addrspace.c:21-32 | a two-page region at the last page of the address space passes the USERSPACETOP test because its end wraps, yet ends above the top |
| AddrSpace.RoundedSize | projects/aos/sos/src/addrspace.c:21-24 | the rounded size is whole pages and covers `[vaddr, vaddr + memsize)` from vaddr's page with less than a page to spare |
| AddrSpace.CreateRegion | projects/aos/sos/src/addrspace.c:14-46 | corrected create_region: refused iff the rounded end passes USERSPACETOP; otherwise the region at vaddr's page with the rounded size, npages = size / 4096, and the flags cut to the low eight bits of the `unsigned char` parameter |
| AddrSpace.CreatedRegionCovers | projects/aos/sos/src/addrspace.c:20-43 | a created region is aligned, covers the request, wastes less than a page, ends at or below the top, and has npages whole pages |
| AddrSpace.CreateRegionAgrees | projects/aos/sos/src/addrspace.c:14-46 | where nothing wraps, create_region as written computes the same region as the corrected one |
| AddrSpace.OrderedDisjoint | projects/aos/sos/src/addrspace.c:48-50 | in an ordered region list, any earlier region ends at or before a later one begins |
| AddrSpace.OrderedInsertDisjoint | projects/aos/sos/src/addrspace.c:64-91 | a region that the overlap tests accept overlaps no region of positive size in the list |
| AddrSpace.InsertOrdered | projects/aos/sos/src/addrspace.c:83-94 | inserting a region where it fits between its neighbours keeps the list ordered |
| AddrSpace.InsertAt | projects/aos/sos/src/addrspace.c:92-93 | splicing a region into the list adds it and nothing else |
| AddrSpace.InsertFromAsWritten | projects/aos/sos/src/addrspace.c:63-98 | the scan of insert_region as written, from one node on: an accepted region is in the longer list |
| AddrSpace.InsertAsWritten | projects/aos/sos/src/addrspace.c:51-102 | insert_region as written: an accepted region is in a list one longer |
| AddrSpace.InsertAsWrittenAcceptsOverlap | projects/aos/sos/src/addrspace.c:68-79 | a region with the same base as the head passes the overlap test and is linked after it, so the ordered list becomes unordered and two regions overlap |
| AddrSpace.IndexOfId | projects/aos/sos/src/addrspace.c:124 | the position of the first region with a given id, or the list's length when there is none |
| AddrSpace.RegionOf | projects/aos/sos/src/addrspace.c:124 | the region a returned handle names: None iff no region has the id; otherwise a region of the list with that id |
| AddrSpace.RegionOfUnique | projects/aos/sos/src/addrspace.c:124 | a region whose id is unique is the one RegionOf finds |
| AddrSpace.InsertAtFresh | projects/aos/sos/src/addrspace.c:92-93 | inserting a region keeps every other id unused |
| AddrSpace.InsertAtLookup | projects/aos/sos/src/addrspace.c:92-93 | inserting a region leaves what every other id names as it was |
| AddrSpace.Space.constructor | projects/aos/sos/src/addrspace.c:4-12 | addrspace_init: no regions and no heap |
| AddrSpace.Space.Slot | projects/aos/sos/src/addrspace.c:63-98 | the scan, with the head and equal bases checked: -1 exactly when Blocked (which always names a region it hits), otherwise a position where it fits |
| AddrSpace.BlockedFromHits | projects/aos/sos/src/addrspace.c:66-93 | every refusal of the scan names a region of the list that the new region hits |
| AddrSpace.AcceptedFromHitsNothing | projects/aos/sos/src/addrspace.c:66-93 | in an ordered list, a scan that accepts the region leaves it hitting no region of the list, before or after its slot |
| AddrSpace.BlockedIffHits | projects/aos/sos/src/addrspace.c:51-102 | in an ordered list, corrected insert_region refuses a region exactly when it hits a region already listed |
| AddrSpace.Space.InsertRegion | projects/aos/sos/src/addrspace.c:51-102 | corrected insert_region: -1 exactly when the scan refuses the region (Blocked), with a region it hits and no change; otherwise it is inserted where it fits and an ordered list stays ordered |
| AddrSpace.Space.DefineRegion | projects/aos/sos/src/addrspace.c:104-125 | the new region exactly when malloc and create_region succeed and insert_region accepts it (for an ordered list: exactly when it hits no listed region), NULL otherwise with no change; on success the list holds the old regions and the new one, found by its id, and stays ordered |
| AddrSpace.Space.DefineStack | projects/aos/sos/src/addrspace.c:127-144 | 0 exactly when as_define_region accepts the stack region; then the stack is the read-write region `[USERSTACKTOP - USERSTACKSIZE, USERSTACKTOP)` (RG_R \| RG_W cut to eight bits), the list holds the old regions and it, stays ordered, and every other id names what it did; on failure nothing changes |
| AddrSpace.Space.DefineIpcBuffer | projects/aos/sos/src/addrspace.c:146-162 | 0 exactly when as_define_region accepts the buffer region; then a one-page read-write region at USERIPCBUFFER, recorded, as written, in `stack`; the list holds the old regions and it, stays ordered, and every other id names what it did |
| AddrSpace.HeapBase | projects/aos/sos/src/addrspace.c:169 | `as->stack->vaddr - USERHEAPSIZE`, exact when no wrap occurs |
| AddrSpace.HeapRegion | projects/aos/sos/src/addrspace.c:164-172 | the heap as_define_heap creates: the empty read-write region at the page of `stack.vaddr - USERHEAPSIZE`, at most a page long |
| AddrSpace.Space.DefineHeap | projects/aos/sos/src/addrspace.c:164-180 | 0 exactly when as_define_region accepts HeapRegion below the stack region; then the heap is that region, the list holds the old regions and it, and stays ordered |
| AddrSpace.StackRegionExact | projects/aos/sos/src/addrspace.c:131-135 | create_region keeps the stack region's base and size exactly as the layout gives them |
| PageTable.ZeroTable | projects/aos/sos/src/pagetable.c:59-64 | a freshly allocated (zero-filled) shadow table: 512 zero words |
| PageTable.Offset | projects/aos/sos/src/pagetable.c:37-42 | corrected get_offset: the level-n index is below 512 |
| PageTable.OffsetAsWrittenAtLevel2 | projects/aos/sos/src/pagetable.c:37-42 | at level 2, the only level the mask 0x7fc0000000 was written for, OffsetAsWritten (get_offset as written: the level-2 mask, then the level's shift) is the true index |
| PageTable.OffsetAsWrittenAtLevel1 | projects/aos/sos/src/pagetable.c:37-42 | at level 1 get_offset as written is always 0, so every address shares one top-level slot |
| PageTable.OffsetAsWrittenOutOfBounds | projects/aos/sos/src/pagetable.c:37-42 | at level 3 get_offset as written gives 512 for address 1 GiB, outside a 512-entry table |
| PageTable.FrameOf | projects/aos/sos/src/pagetable.c:24 | a server address in the frame window names a frame of the table at or below it |
| PageTable.FrameOfVaddr | projects/aos/sos/src/pagetable.c:24-26 | `(vaddr - FRAME_BASE) / 4096` recovers the frame from its server address |
| PageTable.NodeArrays | projects/aos/sos/src/pagetable.c:22-35 | for a node allocated as a run of three frames, get_page_table_ut gives the second frame and get_page_table_cap the third, and all three are distinct |
| PageTable.WalkFrame | projects/aos/sos/src/pagetable.c:44-57 | a walk depends only on the nodes on its path |
| PageTable.WalkStep | projects/aos/sos/src/pagetable.c:49-54 | Walk, the intended get_n_level_table descent that indexes level i with Offset(vaddr, i): one level further it reads the level-n index of the node reached so far |
| PageTable.WalkAsWrittenUsesWrongLevel | projects/aos/sos/src/pagetable.c:44-57 | WalkAsWritten, get_n_level_table as written, indexes every level with the target level's OffsetAsWritten, so the top table is read with the wrong index: for 1 GiB it follows slot 1 where the correct walk follows slot 0 |
| PageTable.Store | projects/aos/sos/src/pagetable.c:86-88 | one word of one shadow table written: that word holds the value and nothing else changes |
| PageTable.Leaf | projects/aos/sos/src/pagetable.c:74-77 | the level-4 write of the frame into the leaf table adds or removes no table |
| PageTable.InsertTouchesOnly | projects/aos/sos/src/pagetable.c:66-95 | an insertion changes only the parent's, cap array's and ut array's slot at the level - 1 index, and at level 4 the leaf's slot |
| PageTable.InsertRecords | projects/aos/sos/src/pagetable.c:74-88 | after an insertion the parent holds the table address, its cap array the slot and its ut array the untyped object; at level 4 the leaf holds the frame |
| PageTable.InsertThenWalk | projects/aos/sos/src/pagetable.c:66-95 | after an insertion the walk to the level reaches the new table, and at level 4 the full translation of vaddr yields the frame |
| PageTable.ShadowTables.constructor | projects/aos/sos/src/pagetable.c:5-18 | no shadow tables yet |
| PageTable.ShadowTables.NLevelTable | projects/aos/sos/src/pagetable.c:44-57 | corrected get_n_level_table: the result is the walk to level n |
| PageTable.ShadowTables.Insert | projects/aos/sos/src/pagetable.c:66-95 | insert_page_table_entry: levels other than 2-4 give seL4_InvalidArgument and write nothing; otherwise seL4_NoError and the shadow memory is `Inserted(old)` |
| PageTable.ShadowTables.WriteParent | projects/aos/sos/src/pagetable.c:86-88 | the three stores into the parent node, its cap array and its ut array |
| PageTable.ShadowTables.UpdateLevel4 | projects/aos/sos/src/pagetable.c:127-133 | the frame is stored at the level-4 index of vaddr's leaf table and nothing else changes |
| PageTable.UpdateLevel4Translates | projects/aos/sos/src/pagetable.c:127-133 | after update_level_4_page_table_entry the translation of vaddr is the frame |
| PageTable.ShadowTables.InitializePageTable | projects/aos/sos/src/pagetable.c:59-64 | NULL iff one of the three frame allocations fails; otherwise three distinct zeroed tables: the node, its ut array and its cap array |
| PageTable.FirstCovering | projects/aos/sos/src/pagetable.c:106-123 | the first region whose range holds vaddr, or None iff no region does |
| PageTable.HandlePageFault | projects/aos/sos/src/pagetable.c:97-125 | does nothing iff no region covers vaddr; otherwise maps one frame for the first covering region, with RegionRights of its flags: RG_X in the first (grant) argument, then RG_R and RG_W |
| Mapping.LevelOf | projects/aos/sos/src/mapping.c:238-278 | each missing paging structure is created at a shadow level that insert_page_table_entry accepts (2, 3 or 4) |
| Mapping.RunFrames | projects/aos/sos/src/mapping.c:238-278 | the run frame_n_alloc is asked for when a structure is missing: two frames exactly for a level-4 (leaf) node, PAGE_TABLE_FRAME_SIZE (at least two) otherwise |
| Mapping.StepAsWritten | projects/aos/sos/src/mapping.c:201-287 | one round as written: the untyped object goes into ut_array only once a slot was allocated, the round cleans up iff the untyped, slot or frame run is missing, and a failed frame run leaves the retype's error in place |
| Mapping.RoundStep | projects/aos/sos/src/mapping.c:201-287 | one round as intended: try_swap_out runs iff the first untyped allocation fails; the untyped object is recorded as soon as it is obtained; the round goes to the clean-up iff no untyped object, no slot or no frame run was obtained, and then with an error and no insertion; otherwise the inserted entry carries the slot, the new table, the object and frame -1 |
| Mapping.StepAgrees | projects/aos/sos/src/mapping.c:223-277 | when slot and frame-run allocation succeed, the round as written and as intended agree |
| Mapping.StepAsWrittenLeaksUntyped | projects/aos/sos/src/mapping.c:223-233 | as written, an untyped object obtained in a round whose slot allocation fails is in no array, so the clean-up never frees it |
| Mapping.StepAsWrittenReportsSuccess | projects/aos/sos/src/mapping.c:243-248 | as written, a round whose frame_n_alloc fails after a successful retype reaches the clean-up with seL4_NoError, so the caller is told the page is mapped |
| Mapping.RecordedAt | projects/aos/sos/src/mapping.c:232-233 | filling the first empty entry of a resource array appends it to what the array records |
| Mapping.RecordedNext | projects/aos/sos/src/mapping.c:297-308 | the clean-up loop visits the recorded entries in index order |
| Mapping.Cleanup | projects/aos/sos/src/mapping.c:295-309 | the clean-up releases exactly the untyped objects, frame runs and slots the arrays record, in index order |
| Mapping.Record | projects/aos/sos/src/mapping.c:232-233 | one round's writes to ut_array, slot_array and frame_array add exactly what the round took, and the later entries stay empty |
| Mapping.MapFrame | projects/aos/sos/src/mapping.c:170-310 | a negative frame gives seL4_NotEnoughMemory before anything is taken. Otherwise the error, the shadow insertions, the try_swap_out calls and the resources taken are exactly the fold `Rounds` of RoundStep over the rounds the loop runs (at most MAPPING_SLOTS, while the error is seL4_FailedLookup and no round jumped to the clean-up), starting from the first seL4_ARM_Page_Map's error; every insertion is at the page-aligned vaddr; success iff that fold ends in seL4_NoError, and then the frame is recorded at the leaf with its copied capability and the pid and nothing is released; on failure the clean-up releases exactly the resources the rounds took; without seL4_FailedLookup no round runs |
| Mapping.NoRounds | projects/aos/sos/src/mapping.c:201 | when the first mapping does not report a missing paging structure, the loop runs no round |
| Mapping.RoundsStop | projects/aos/sos/src/mapping.c:201-287 | the loop ends with an error other than seL4_FailedLookup, with a jump to the clean-up, or after all MAPPING_SLOTS rounds each inserted a node |
| Mapping.RoundsConsistent | projects/aos/sos/src/mapping.c:201-287 | over the rounds every insertion is at the aligned vaddr and at level 2, 3 or 4, the arrays record one frame run per inserted node and at least as many untyped objects and slots, all released by a later clean-up, a jump to the clean-up carries an error, and each round adds at most one insertion and one try_swap_out call |
| Mapping.RequestMatchesLevel | projects/aos/sos/src/mapping.c:238-278 | a round that creates a shadow node asked frame_n_alloc for two frames exactly when the node is a leaf |
| Mapping.RecordedEmptyTail | projects/aos/sos/src/mapping.c:295-309 | empty entries at the end of a resource array add nothing to what it records |
| Mapping.RecordedNone | projects/aos/sos/src/mapping.c:197-199 | the freshly initialised arrays (`{0, 0, 0}`, `{-1, -1, -1}`) record nothing |
| Swap.Cleared | projects/aos/sos/src/swap.c:71 | a frame given a second chance loses its reference bit, keeps its pin bit, and nothing else of it changes |
| Swap.Scan | projects/aos/sos/src/swap.c:61-124 | the clock scan as a function of the frame records, from the hand, for a number of loop iterations; it never changes the number of records |
| Swap.ScanVictim | projects/aos/sos/src/swap.c:61-121 | the victim is an unpinned, unreferenced frame in `[first_available_frame, max - 1)` and the hand ends just past it; the hand stays in range. Since frame_alloc sets `max` to the highest page handed out (frametable.c:168-170), that page is never a victim |
| Swap.ScanUnmappedInRange | projects/aos/sos/src/swap.c:62-77 | every frame the scan unmaps lies in the scanned range |
| Swap.ScanOnlyClears | projects/aos/sos/src/swap.c:65-78 | the scan changes a frame only by clearing the reference bit of an unpinned, referenced frame, and unmaps each frame it changes |
| Swap.ScanAdvance | projects/aos/sos/src/swap.c:62-121 | one loop iteration: a pinned frame is skipped, a referenced one is cleared and unmapped, and an unreferenced one ends the scan as the victim |
| Swap.ScanTick | projects/aos/sos/src/swap.c:62-121 | ScanAdvance for the outcome of one Tick |
| Swap.ClearKeepsPin | projects/aos/sos/src/swap.c:71 | clearing the reference bit leaves the pin bit alone |
| Swap.ReachUnreferenced | projects/aos/sos/src/swap.c:61-121 | an unpinned, unreferenced frame within the hand's reach is found, or an earlier victim is |
| Swap.ReachReferenced | projects/aos/sos/src/swap.c:61-121 | an unpinned, referenced frame gets its second chance on the first visit and is found a lap later |
| Swap.ScanSteps | projects/aos/sos/src/swap.c:59-61 | the loop runs from first_available_frame to twice max, which is at least two laps of the scanned range |
| Swap.ScanFindsVictim | projects/aos/sos/src/swap.c:59-124 | two laps suffice: when some frame in the scanned range is unpinned, try_swap_out finds a victim |
| Swap.AllPinnedNoVictim | projects/aos/sos/src/swap.c:49-66 | when every frame in the range is pinned, the scan finds no victim and changes nothing, and try_swap_out keeps seL4_NotEnoughMemory |
| Swap.ScanVictimIff | projects/aos/sos/src/swap.c:49-125 | a victim is found iff some frame in the scanned range is unpinned |
| Swap.ChainUpdate | projects/aos/sos/src/swap.c:92-100 | writing a slot that is not on the swap file's free list keeps the list |
| Swap.ChainPush | projects/aos/sos/src/swap.c:38-41 | pushing a slot that is not on the list, with the old head written into it, gives a longer list |
| Swap.ChainRestore | projects/aos/sos/src/swap.c:22-100 | taking the head off the free list and pushing it back restores the file |
| Swap.ChainBelow | projects/aos/sos/src/swap.c:92-100 | every slot on the free list lies below `tail` and is free |
| Swap.Marker | projects/aos/sos/src/swap.c:31-104 | the page-table value for a slot is its file offset plus one, never zero, and `(value - 1) / 4096` recovers the slot |
| Swap.UnpinnedNotIn | projects/aos/sos/src/frametable.c:226-239 | an unpinned frame is not on the untyped list, whose frames are all pinned |
| Swap.PinnedUpdate | projects/aos/sos/src/swap.c:71 | rewriting a frame keeps the untyped list's frames pinned when the frame is off the list or stays pinned |
| Swap.Tick | projects/aos/sos/src/swap.c:62-78 | one iteration: the hand wraps at max - 1; a pinned frame is passed over, a referenced one loses its reference bit, and otherwise the frame under the hand is the victim |
| Swap.ScanFrames | projects/aos/sos/src/swap.c:61-124 | the loop computes Scan of the old records: the victim, the frames unmapped, the final hand and the new records |
| Swap.SwapFile.HeldIffOffList | projects/aos/sos/src/swap.c:12-13 | below `tail`, a slot holds a page iff it is not on the free list |
| Swap.SwapFile.constructor | projects/aos/sos/src/swap.c:11-14 | header and tail start at 0: an empty swap file with an empty free list |
| Swap.SwapFile.Initialize | projects/aos/sos/src/swap.c:17-20 | the clock hand starts at the first available frame and nothing else changes |
| Swap.SwapFile.AllocSlot | projects/aos/sos/src/swap.c:82-100 | the slot is the old header; an empty list grows the file by one slot, otherwise the head comes off the free list |
| Swap.SwapFile.WritePage | projects/aos/sos/src/swap.c:106-110 | the slot now holds the page and nothing else changes |
| Swap.SwapFile.LoadPage | projects/aos/sos/src/swap.c:22-44 | returns the page held in the slot the offset names, and pushes that slot on the free list |
| Swap.SwapFile.TrySwapOut | projects/aos/sos/src/swap.c:46-126 | seL4_NoError iff the scan finds a victim; without one only reference bits and the hand change, with seL4_NotEnoughMemory; with one, its page goes to the allocated slot, its frame is freed, the hand ends past it, and the owner is told the frame, address, pid and slot marker |
| Swap.SwapFile.Evict | projects/aos/sos/src/swap.c:79-120 | the victim's page is written to the slot at the head of the free list, the frame is freed and the hand moves past it |
| Swap.EvictThenLoad | projects/aos/sos/src/swap.c:22-126 | a page swapped out and loaded back is the page that was in the frame, and the free list is as it was before |
| Clock.ZeroHandler | projects/aos/libclock/src/clock.c:46 | the statically zeroed handler in slot 0 has id 0, below every deadline |
| Clock.Swap | projects/aos/libclock/src/clock.c:72-77 | swap exchanges the two slots and changes nothing else |
| Clock.SwapPermutes | projects/aos/libclock/src/clock.c:72-77 | swap only permutes the handlers |
| Clock.Swum | projects/aos/libclock/src/clock.c:79-86 | swim changes only slots at or above k |
| Clock.SwumPermutes | projects/aos/libclock/src/clock.c:79-86 | swim only permutes the handlers |
| Clock.SwumKeepsSentinel | projects/aos/libclock/src/clock.c:79-86 | with the zero sentinel in slot 0, swim never moves slot 0 |
| Clock.SwimStep | projects/aos/libclock/src/clock.c:81-85 | one exchange of swim moves the only out-of-order edge one level up |
| Clock.SwumOrdered | projects/aos/libclock/src/clock.c:79-86 | swim restores the heap order when only the edge into k is out of order |
| Clock.EarlierChild | projects/aos/libclock/src/clock.c:92-94 | the child sink picks is a child of k and no later than either child |
| Clock.Sunk | projects/aos/libclock/src/clock.c:88-100 | sink keeps slot 0 and the slots past n |
| Clock.SunkPermutes | projects/aos/libclock/src/clock.c:88-100 | sink only permutes the handlers |
| Clock.SinkStep | projects/aos/libclock/src/clock.c:95-98 | one exchange of sink moves the only out-of-order edges one level down |
| Clock.SunkOrdered | projects/aos/libclock/src/clock.c:88-100 | sink restores the heap order when only the edges out of k are out of order |
| Clock.RootIsEarliest | projects/aos/libclock/src/clock.c:133-138 | in an ordered heap slot 1 holds the earliest deadline |
| Clock.SameLive | projects/aos/libclock/src/clock.c:72-100 | a permutation that keeps the slots outside 1..n keeps the queued handlers |
| Clock.AppendReady | projects/aos/libclock/src/clock.c:113-119 | writing a handler into slot n + 1 queues it and leaves only the edge into n + 1 out of order |
| Clock.RemoveSwimReady | projects/aos/libclock/src/clock.c:151 | moving the last handler into slot i leaves a repair for swim when it is earlier than its parent |
| Clock.RemoveSinkReady | projects/aos/libclock/src/clock.c:151-152 | otherwise it leaves a repair for sink |
| Clock.RemoveLive | projects/aos/libclock/src/clock.c:124-154 | moving the last handler into slot i and shrinking dequeues exactly slot i's handler |
| Clock.RemoveRepairs | projects/aos/libclock/src/clock.c:140-154 | removing slot i and repairing dequeues exactly that handler and keeps the sentinel |
| Clock.RepairedOrdered | projects/aos/libclock/src/clock.c:140-154 | removing slot i and repairing in the needed direction keeps the heap order |
| Clock.RepairedLive | projects/aos/libclock/src/clock.c:140-154 | the repair only permutes the queued handlers |
| Clock.FirstWithId | projects/aos/libclock/src/clock.c:142-146 | the first slot from i on that holds the id, or n + 1 when none does |
| Clock.InsertSlotAsWritten | projects/aos/libclock/src/clock.c:109-115 | the guard as written admits a heap of up to 32 handlers and writes slot n + 1 |
| Clock.InsertOverflowsAsWritten | projects/aos/libclock/src/clock.c:109-115 | with 32 handlers queued the guard admits a 33rd, written to pq[33], past the end of the 33-slot array |
| Clock.InsertSlot | projects/aos/libclock/src/clock.c:109-115 | the intended guard admits a handler iff fewer than 32 are queued, into slot n + 1 |
| Clock.InsertSlotInBounds | projects/aos/libclock/src/clock.c:109-115 | every slot the intended guard admits is inside the array |
| Clock.DeleteIdAsWritten | projects/aos/libclock/src/clock.c:140-154 | delete_id as written fails iff no queued handler has the id |
| Clock.DeleteIdAsWrittenBreaksOrder | projects/aos/libclock/src/clock.c:151-152 | removing 11 from the heap 1, 10, 2, 11, 12, 3 moves 3 under 10, and sink alone leaves the heap out of order |
| Clock.DifferenceAsWritten | projects/aos/libclock/src/clock.c:315 | `int difference = obj.id - now` lies in the signed 32-bit range |
| Clock.DifferenceKeepsLowBits | projects/aos/libclock/src/clock.c:315 | the truncated difference keeps the low 32 bits of the true one |
| Clock.DueAsWrittenFiresEarly | projects/aos/libclock/src/clock.c:315-317 | DueAsWritten, the test on `int difference = id - now`, lets a deadline 2^32 + 100 µs away pass, so it fires at once |
| Clock.DueAgreesNearNow | projects/aos/libclock/src/clock.c:315-317 | Due, the intended test on the full 64-bit difference (deadline past or within TOLERANCE), agrees with DueAsWritten when the deadline is within 2^31 µs of now |
| Clock.TimerCount | projects/aos/libclock/src/clock.c:60-65 | the count is the delay in milliseconds, rounded down and clamped to TIMER_MAX |
| Clock.TimerHeap.constructor | projects/aos/libclock/src/clock.c:46 | the zeroed static heap: no handlers queued |
| Clock.TimerHeap.Swim | projects/aos/libclock/src/clock.c:79-86 | the loop computes Swum of the old array |
| Clock.TimerHeap.Sink | projects/aos/libclock/src/clock.c:88-100 | the loop computes Sunk of the old array |
| Clock.TimerHeap.Insert | projects/aos/libclock/src/clock.c:107-122 | -1 iff the heap is full, and then nothing changes; otherwise the handler is queued and the heap stays ordered |
| Clock.TimerHeap.PeepMin | projects/aos/libclock/src/clock.c:133-138 | None iff the heap is empty; otherwise a queued handler no later than any other |
| Clock.TimerHeap.DeleteMin | projects/aos/libclock/src/clock.c:124-131 | returns what peep_min returned before and dequeues exactly that handler; an empty heap is left alone |
| Clock.TimerHeap.Find | projects/aos/libclock/src/clock.c:141-146 | the search loop finds the first slot with the id, or n + 1 |
| Clock.TimerHeap.DeleteId | projects/aos/libclock/src/clock.c:140-154 | corrected delete_id: -1 and no change iff no handler has the id; otherwise the first such handler is dequeued and the heap order kept |
| Clock.TimerHeap.RemoveAt | projects/aos/libclock/src/clock.c:151-152 | the removal with swim or sink as needed dequeues exactly slot i's handler and keeps the order |
| Clock.DeadlineId | projects/aos/libclock/src/clock.c:218 | the id is the deadline `delay + now`, wrapped once past 2^64 |
| Clock.DeadlineIdsCollide | projects/aos/libclock/include/clock/clock.h:49-55 | the ids are not unique (delay 10 at 0 and delay 5 at 5 both get 10) and a wrapped deadline gets 0, the failure value |
| Clock.RegisterTimer | projects/aos/libclock/src/clock.c:212-252 | 0 when the queue is full, with the queue untouched; otherwise the id DeadlineId(delay, now), the handler is queued and the timer is programmed for the earliest deadline |
| Clock.RemoveTimer | projects/aos/libclock/src/clock.c:254-286 | CLOCK_R_FAIL iff no handler has the id, and then the queue and its array contents are unchanged; otherwise the first handler with the id is dequeued (the contents lose exactly that handler and n drops by one), and the timer is stopped when the heap is empty or programmed for the new earliest deadline |
| Clock.TimerInterrupt | projects/aos/libclock/src/clock.c:288-340 | with the intended test, a due earliest handler is dequeued and returned for its callback, and the timer stopped or reprogrammed with TimerCount of Delta, the wrapped 64-bit `id - now`; an early interrupt only reprograms for that handler |
| Syscall.FirstResumable | projects/aos/sos/src/syscall/syscall.c:77-86 | the position of the first resumable coroutine in the queue, or the queue's length when none is |
| Syscall.RunOnce | projects/aos/sos/src/syscall/syscall.c:75-87 | run_coroutine drops the non-resumable entries at the front; the first resumable one is resumed and moved to the tail, and none is resumed iff no entry is resumable, which empties the queue |
| Syscall.CoroQueue.constructor | projects/aos/sos/src/syscall/syscall.c:43-52 | the coroutine list starts empty |
| Syscall.CoroQueue.Add | projects/aos/sos/src/syscall/syscall.c:43-52 | add_coroutine appends at the tail |
| Syscall.CoroQueue.Create | projects/aos/sos/src/syscall/syscall.c:54-62 | create_coroutine appends iff its node can be allocated |
| Syscall.CoroQueue.Pop | projects/aos/sos/src/syscall/syscall.c:64-73 | pop_coroutine removes and returns the head, or NULL on an empty list |
| Syscall.CoroQueue.Run | projects/aos/sos/src/syscall/syscall.c:75-87 | the loop leaves the queue and the resumed coroutine that RunOnce gives |
| Syscall.RunKeepsResumable | projects/aos/sos/src/syscall/syscall.c:75-87 | run_coroutine never lengthens the queue and keeps every resumable coroutine queued |
| Syscall.Resize | projects/aos/sos/src/syscall/syscall.c:278 | only the region with the id changes, and only in its size |
| Syscall.ResizeLookup | projects/aos/sos/src/syscall/syscall.c:272-280 | after resizing, looking up the heap region gives the resized region |
| Syscall.EnsureHeap | projects/aos/sos/src/syscall/syscall.c:264-296 | an existing heap is kept as it is; otherwise the heap is defined below the stack and used_top set to its base; the result is true exactly when a heap existed or the stack region exists and as_define_heap accepts HeapRegion below it (LazyHeapOk), and false where the source would dereference a NULL heap |
| Syscall.ResizeOther | projects/aos/sos/src/syscall/syscall.c:279-280 | resizing the heap region leaves what every other id names as it was |
| Syscall.Grow | projects/aos/sos/src/syscall/syscall.c:274-279 | brk of 0 or below the current break leaves the heap alone; otherwise the heap ends at newbrk; the heap never shrinks |
| Syscall.GrowHeap | projects/aos/sos/src/syscall/syscall.c:272-281 | the heap region is replaced by its Grow and the reply is its end, the new break |
| Syscall.Brk | projects/aos/sos/src/syscall/syscall.c:258-282 | with a heap, the heap region becomes its Grow by newbrk (brk(0) or a lower break leaves it, otherwise it ends at newbrk) and the reply is its end; without one, the heap is first defined as HeapRegion below the stack with used_top at its base, then grown the same way, and it faults exactly when LazyHeapOk fails (NULL dereference); every other region is kept |
| Syscall.Mmap | projects/aos/sos/src/syscall/syscall.c:284-303 | the heap is defined lazily as for brk and used_top is not moved; the reply is the page-aligned base of the new read-write region `[used_top - size, used_top)`; with a heap it replies exactly when as_define_region accepts that region, without one exactly when LazyHeapOk holds and the region is created and hits neither a listed region nor the new heap (for an ordered list), and faults otherwise (NULL dereference); every region other than the heap and the new one is kept |
| Syscall.FirstBasedAt | projects/aos/sos/src/syscall/syscall.c:311-318 | the first region whose base is `base`, or the list's length |
| Syscall.MunmapReplyAsWritten | projects/aos/sos/src/syscall/syscall.c:319-323 | as written, the reply faults iff no region was found, because `region->vaddr` is read with region NULL |
| Syscall.MunmapReply | projects/aos/sos/src/syscall/syscall.c:319-323 | corrected: 0 iff a region was found, otherwise a non-zero failure |
| Syscall.MunmapOfUnmappedFaults | projects/aos/sos/src/syscall/syscall.c:305-325 | unmapping an address at which no region starts faults as written, and fails cleanly when corrected |
| Syscall.Munmap | projects/aos/sos/src/syscall/syscall.c:305-325 | the first region based at `base` is removed and used_top moves to its end; without one nothing changes; the reply is MunmapReply's |
| Elf.RightsFromElf | projects/aos/sos/src/elf.c:30-41 | read is granted for readable or executable segments, write for writable ones, grant never; a segment with none of R, W, X gets all rights |
| Elf.NextPage | projects/aos/sos/src/elf.c:104-118 | one iteration's step from `dst` lands on the start of the next page |
| Elf.SamePage | projects/aos/sos/src/elf.c:88-104 | addresses between `dst` and the end of its page share `dst`'s page |
| Elf.ToPageEnd | projects/aos/sos/src/elf.c:104 | nbytes, the bytes from `dst` to the end of its page, is between 1 and 4096 |
| Elf.AppendStep | projects/aos/sos/src/elf.c:87-120 | one more iteration keeps the chunks done so far plus those to come equal to the whole loop's |
| Elf.ChunksShape | projects/aos/sos/src/elf.c:87-120 | the loop touches consecutive pages, starting at the page of the first byte; each write stays inside its page, and every write after the first starts at a page boundary |
| Elf.ChunksLastPage | projects/aos/sos/src/elf.c:87-120 | the last page touched is the page of the segment's last byte, so one frame is taken per page the segment overlaps |
| Elf.ChunksCopyFile | projects/aos/sos/src/elf.c:105-108 | the loop copies exactly the file part of the segment |
| Elf.StepImage | projects/aos/sos/src/elf.c:104-110 | one iteration leaves every byte of its page range holding file content before file_size and zero after |
| Elf.ChunksImage | projects/aos/sos/src/elf.c:87-120 | every byte of `[dst, dst + segment_size)` is on a page the loop touches and holds the file byte below file_size and zero above it |
| Elf.LoadSegment | projects/aos/sos/src/elf.c:77-122 | the loop's writes are Chunks of the segment from position 0 |
| Elf.SegmentFrom | projects/aos/sos/src/elf.c:137-142 | Segments, the segment loads elf_load makes in header order: every one comes from a PT_LOAD header (Segment: its region flags, rights and page chunks) |
| Elf.SegmentLoaded | projects/aos/sos/src/elf.c:137-163 | every PT_LOAD header's segment is loaded |
| Elf.ElfLoad | projects/aos/sos/src/elf.c:124-171 | -1 iff the file is missing or fails elf_checkFile, with nothing loaded; otherwise 0 and each PT_LOAD segment, in header order, gets its region and its pages |
| ProcStack.PairsOfTwo | projects/aos/sos/src/main.c:257-261 | the two auxiliary entries are laid out as tag, value, tag, value |
| ProcStack.TopAligned | projects/aos/sos/src/main.c:277-282 | ten words below a page-aligned stack top is a 16-byte boundary |
| ProcStack.StackWrite | projects/aos/sos/src/main.c:181-185 | stack_write stores the word at `index` below the top, changes no other word, and returns the next index down |
| ProcStack.InitProcessStack | projects/aos/sos/src/main.c:189-296 | 0 and nothing written when no sysinfo table is found; otherwise the nine words below the top form the System V initial stack (argc 0, empty argv and envp, AT_SYSINFO and AT_PAGESZ, AT_NULL), no other word changes, and the returned stack top is 80 bytes below USERSTACKTOP and 16-byte aligned |
| Console.Take | projects/aos/sos/src/vfs/console.c:103-125 | one pass takes no more characters than are buffered or wanted |
| Console.TakeStops | projects/aos/sos/src/vfs/console.c:103-125 | a pass stops exactly where a read must: no newline before its last character, short of both bounds only right after a newline, and it takes nothing iff the buffer is empty or nothing is wanted |
| Console.ConSoftc.Initialize | projects/aos/sos/src/vfs/console.c:239-249 | con_initialize: an empty buffer and no reader |
| Console.ConSoftc.ReadHandler | projects/aos/sos/src/vfs/console.c:85-93 | a character from the serial line joins the queue unless the 3000-character buffer is full, when it is dropped |
| Console.ConSoftc.TakeChar | projects/aos/sos/src/vfs/console.c:109-112 | the oldest buffered character leaves the ring |
| Console.ConSoftc.DeliverPass | projects/aos/sos/src/vfs/console.c:95-125 | with a NULL buffer nothing happens; otherwise the pass delivers the first Take characters of the queue, in order, and replies `idx + delivered` iff the read is answered (resid used up or a newline delivered) |
| Console.ConSoftc.Deliver | projects/aos/sos/src/vfs/console.c:104-125 | the inner loop delivers the first Take characters and replies iff the read is answered |
| Console.ConSoftc.EachOpen | projects/aos/sos/src/vfs/console.c:68-83 | an open for reading (O_RDONLY or O_RDWR) succeeds iff nobody reads the console, and the opener becomes its reader; any other mode succeeds and records nothing |
| Console.ConSoftc.Reclaim | projects/aos/sos/src/vfs/console.c:197-206 | when the current process is the reader, the buffer is emptied and the console has no reader; otherwise nothing changes; always 0 |
| Console.DeliverStep | projects/aos/sos/src/vfs/console.c:109-124 | one character moves from the buffer to the delivered prefix, and the pass ends there iff resid reaches 0 or the character is a newline |
| Console.RingDistinct | projects/aos/sos/src/vfs/console.c:88-111 | fewer than BUFFER_SIZE consecutive ring positions are distinct |
| Console.RingNext | projects/aos/sos/src/vfs/console.c:90-111 | advancing a ring index modulo BUFFER_SIZE gives the next ring position |
| Console.RingShift | projects/aos/sos/src/vfs/console.c:111 | moving the head one on shifts the ring positions by one |
| Uio.UioRecord.constructor | projects/aos/sos/src/vfs/uio.h:71-78 | an empty uio record: no bytes to transfer |
| Uio.UioRecord.UInit | projects/aos/sos/src/vfs/uio.c:37-47 | uio_uinit describes a user-space transfer of `len` bytes at `pos` for the process, with nothing moved yet |
| Uio.UioRecord.KInit | projects/aos/sos/src/vfs/uio.c:49-59 | uio_kinit describes the same inside SOS, with no process |
| Uio.FirstNul | projects/aos/sos/src/vfs/uio.c:80-91 | the index of a NUL byte found is inside the string |
| Uio.FirstNulIsFirst | projects/aos/sos/src/vfs/uio.c:80-91 | the NUL found is the first one, and none is found iff the string has no NUL |
| Uio.CopiedCount | projects/aos/sos/src/vfs/uio.c:80-91 | the copy never passes the bound |
| Uio.CopyResultMeaning | projects/aos/sos/src/vfs/uio.c:80-101 | a non-negative copystr result is the string's length (non-NUL bytes before it, the NUL at it, copied through it); -1 iff the whole bound was copied without a NUL |
| Uio.LeftSizeAsWrittenOverruns | projects/aos/sos/src/vfs/uio.c:74 | LeftSizeAsWritten, `region->vaddr + region->size - region->vaddr`, is the region's whole size, so a copy starting one byte before the end of a one-page region may run 255 bytes past it |
| Uio.LeftSizeStaysInRegion | projects/aos/sos/src/vfs/uio.c:74-80 | with LeftSize, the intended left_size (the region's end minus the user address), every byte copied lies inside the region |
| Uio.CopyStr | projects/aos/sos/src/vfs/uio.c:65-103 | -1 and nothing copied when no region holds the user address; otherwise COPYIN copies user bytes into SOS and COPYOUT the other way, up to and including the first NUL within the bound (the smaller of length and the bytes left in the region), and the result is CopyResult |
| Uio.CopyLoop | projects/aos/sos/src/vfs/uio.c:80-102 | the loop's result is CopyResult, and the destination is the source's copied prefix over the old destination |
| Uio.Splice | projects/aos/sos/src/vfs/uio.c:82-84 | copying byte i extends the copied prefix by one |
| Uio.CopyStep | projects/aos/sos/src/vfs/uio.c:82-88 | one byte further: the first NUL is either this byte or still ahead |
| Uio.FirstNulPrefix | projects/aos/sos/src/vfs/uio.c:85-88 | a NUL with none before it is the first NUL |
| RefCount.Run | projects/aos/sos/src/vfs/vnode.c:77-123 | a run of increfs and decrefs from a live count leaves the object alive with a positive count, or reports the operation that reclaimed it |
| RefCount.RunReclaimsAtLastRef | projects/aos/sos/src/vfs/vnode.c:99-107 | the object is reclaimed exactly at the first decref that finds the count at 1; while it lives its count is the balance of increfs over decrefs, never below 1 |
| RefCount.BalanceCons | projects/aos/sos/src/vfs/vnode.c:77-107 | the balance after one more operation at the front |
| RefCount.BalancedReleases | projects/aos/sos/src/syscall/openfile.c:110-128 | a count raised by n increfs survives `rc + n - 1` decrefs, at count 1, and the next decref reclaims it |
| RefCount.DecsFrom | projects/aos/sos/src/vfs/vnode.c:99-107 | from count rc, `rc - 1` decrefs leave it at 1 and the next one reclaims it |
| Vnodes.Vnode.Init | projects/aos/sos/src/vfs/vnode.c:43-55 | vnode_init: one reference, the given operations, file system and data |
| Vnodes.Vnode.Cleanup | projects/aos/sos/src/vfs/vnode.c:60-70 | vnode_cleanup, allowed only at count 1: the count becomes 0 and every handle NULL |
| Vnodes.Vnode.Incref | projects/aos/sos/src/vfs/vnode.c:77-83 | one Inc of the reference-count discipline: exactly one more reference, nothing else changes |
| Vnodes.Vnode.Decref | projects/aos/sos/src/vfs/vnode.c:90-123 | one Dec of the discipline: above 1 the count drops by one; at 1 it is kept and the vnode reclaimed; the console's vnode is reclaimed once more at every decref |
| OpenFiles.AccmodeOf | projects/aos/sos/src/syscall/openfile.c:97 | `openflags & O_ACCMODE` is O_ACCMODE itself or one of the three valid modes |
| OpenFiles.ClosingOpIsReadable | projects/aos/sos/src/syscall/openfile.c:72-77 | closing_op is 1 iff the file was open for reading (its mode is not O_WRONLY), 0 iff only for writing |
| OpenFiles.OpenFile.Init | projects/aos/sos/src/syscall/openfile.c:56-59 | a new open file: the vnode, the mode, offset 0, one reference |
| OpenFiles.OpenFile.Incref | projects/aos/sos/src/syscall/openfile.c:110-113 | one Inc of the reference-count discipline |
| OpenFiles.OpenFile.Destroy | projects/aos/sos/src/syscall/openfile.c:68-80 | records on the vnode whether the file was open for reading and hands the vnode to vfs_close; the vnode's count is untouched |
| OpenFiles.OpenFile.Decref | projects/aos/sos/src/syscall/openfile.c:119-128 | one Dec of the discipline: the last reference destroys the file and closes its vnode, any other drops the count by one |
| OpenFiles.Create | projects/aos/sos/src/syscall/openfile.c:45-62 | NULL iff malloc fails; otherwise a new file on the vnode with the mode, offset 0 and one reference |
| OpenFiles.Open | projects/aos/sos/src/syscall/openfile.c:85-105 | a vfs_open error is passed on; a failed allocation closes the vnode again and gives ENOMEM; otherwise 0 and a new file with the O_ACCMODE bits of the flags |
| Proc.GetProcessAsWritten | projects/aos/sos/src/proc.c:21-26 | get_process as written is NULL iff pid > 32 |
| Proc.GetProcessZeroOutOfRange | projects/aos/sos/src/proc.c:23-25 | pid 0 passes the guard and `pid - 1` wraps to 0xFFFFFFFF, far outside the 32 records |
| Proc.GetProcess | projects/aos/sos/src/proc.c:21-26 | the intended lookup finds a record iff 1 <= pid <= 32, the record at pid - 1 |
| Proc.GetProcessAgrees | projects/aos/sos/src/proc.c:21-26 | the two agree on every pid but 0, and each of the 32 records is found by exactly one pid |
| Proc.Processes.constructor | projects/aos/sos/src/proc.c:9 | no current process |
| Proc.Processes.SetCurProc | projects/aos/sos/src/proc.c:11-14 | set_cur_proc records the process |
| Proc.Processes.GetCurProc | projects/aos/sos/src/proc.c:16-19 | get_cur_proc returns the process last set |
| FileSyscall.FileTable.constructor | projects/aos/sos/src/syscall/filesyscall.c:31 | a file table of n empty slots |
| FileSyscall.FileTable.Get | projects/aos/sos/src/syscall/filesyscall.c:31-34 | filetable_get finds a file iff the descriptor is in range and its slot is occupied, and then it is that slot's file |
| FileSyscall.FdOf | projects/aos/sos/src/syscall/filesyscall.c:146 | `(int)fd` is a signed 32-bit value with the word's low 32 bits |
| FileSyscall.FdOfSmall | projects/aos/sos/src/syscall/filesyscall.c:146 | small descriptors pass the cast unchanged, and a word differing only above bit 31 names the same slot |
| FileSyscall.ReadWriteResultMeaning | projects/aos/sos/src/syscall/filesyscall.c:36-73 | ReadWriteResult, `_sys_readwrite` as a function of the VOP's outcome: a read or write fails iff the file's mode is the refused one (EBADF) or the VOP fails; a failure leaves the offset alone; a success returns the bytes the VOP took off the uio and moves a seekable file's offset to the uio's; a non-seekable file's offset never moves and its transfer starts at 0 |
| FileSyscall.ReadWrite | projects/aos/sos/src/syscall/filesyscall.c:21-74 | EBADF for a descriptor filetable_get refuses; otherwise the result, byte count and new offset are ReadWriteResult's, and the table and the file's mode, count and vnode are unchanged |
| FileSyscall.RwReplyErrors | projects/aos/sos/src/syscall/filesyscall.c:144-178 | read and write reply without error iff the buffer is valid and the transfer succeeded, and then with the byte count; every failure, EBADF included, reaches the caller as EFAULT |
| FileSyscall.SysReadWrite | projects/aos/sos/src/syscall/filesyscall.c:136-180 | an invalid buffer gives EFAULT before the table is looked at, and no offset moves; a bad descriptor gives EFAULT; otherwise the reply is RwReply of the transfer, O_WRONLY refused for read and O_RDONLY for write |
| FileSyscall.OpenFlagsOkMeaning | projects/aos/sos/src/syscall/filesyscall.c:107-117 | accepted flags have no bit outside O_ACCMODE, O_CREAT, O_EXCL, O_TRUNC, O_APPEND and O_NOCTTY; they are below 0x800, and every access mode, 3 included, is accepted |
| FileSyscall.OpenReplyMeaning | projects/aos/sos/src/syscall/filesyscall.c:105-134 | OpenReply, `_sys_open`'s reply from its three steps: no error iff the flags are accepted, the path fits in NAME_MAX + 1 bytes and the open succeeds, and then with the descriptor; any failure replies (-1, -1) |
| FileSyscall.SysClose | projects/aos/sos/src/syscall/filesyscall.c:227-250 | EBADF and no change for a descriptor outside the table; otherwise the slot is emptied; an empty slot gives EBADF, and a file gives (0, 0) and one Dec of its count, closing its vnode on the last reference |
| Common.PageAlign | projects/aos/sos/src/mapping.c:180 | `vaddr & PAGE_FRAME` is the page boundary at or below vaddr, less than a page below it |
| Common.ZeroPage | projects/aos/sos/src/frametable.c:163 | the contents memset gives a fresh frame: 4096 bytes, all zero |

## Left out

- seL4 capability plumbing (`cspace_*`, retype, `seL4_ARM_Page_Map`/`Unmap`, `ut_alloc`/`ut_free`, `map_frame`, `sos_map_device`): kernel calls; their outcomes are parameters of the methods that make them.
- Bootstrap, IPC and the syscall dispatch loop (`main`, `main_continued`, `start_first_process`, `sos_ipc_init`, `syscall_loop`, `handle_syscall`, `syscall_reply`): message-register I/O and start-up.
- NFS (`nfs/nfs.c`), `vfs/vfslookup.c` and the VFS layer (`vfs_open`, `vfs_close`, `vfs_lookup`, `VOP_*`): network and file-system I/O; their results are parameters, and the swap file is an abstract map from slots to pages.
- Coroutine suspension (`resume`, `yield`): only the queue bookkeeping is modelled; whether a coroutine is still resumable is a parameter of `Run`.
- Timer hardware (`update_timer_mux`, the RAW_READ/RAW_WRITE registers, `init_irq`, `start_timer`, `stop_timer`, `timestamp_us`): device I/O; "now" is a parameter and what would be written to the timer is a result.
- The console output path (`con_io` writes through `serial_send`, with busy delays) and every `printf`: device I/O.
- `filetable.c` is not part of this model: `FileTable` is a sequence of optional open files, and `filetable_put` has no effect in it.
- `_sys_do_open`, `_sys_stat` and `_sys_getdirent` in `filesyscall.c`: they are wrappers around `vfs_open`, VOP_STAT and VOP_GETDIRENTRY. `_sys_open` is modelled through its flag check and the outcome of the open, with the path length copystr returns as an input.
- `get_sos_virtual_address`, `update_page_status`, `get_cap_from_vaddr`, `validate_virtual_address`, `vaddr_get_region` and `as_destroy_region` are not part of this model: their results are parameters, and destroying a region removes it from the list.
- `vmem_layout.h` is not part of this model: USERSTACKTOP and the other layout constants, and the RG_* region flags, are the fields of `Common.Layout`, with the relations the layout needs stated by `Layout.Valid`.
- Callers of `sos_map_frame` (`main.c:194`, `elf.c:100`, `pagetable.c:117`) pass the page-table address and vspace where the definition (`mapping.c:170`) takes the process; the model follows the definition.
- `pagetable.c:131` uses an undeclared `offset`; `PageTable.ShadowTables.UpdateLevel4` takes it to be `get_offset(vaddr, 4)`, the level-4 index.
- Widths: the model computes with unbounded integers where the C code uses 32-bit `unsigned` (`header`, `tail` and the slot offsets of swap.c, `pos` of elf.c) and 64-bit words elsewhere; wrap-around is modelled only where it changes a result (page rounding in `create_region`, `int difference` in clock.c, `(int)fd`, the unsigned pid).
- `FRAME_GET_BIT`, which swap.c uses for the PIN and CLOCK tests (`swap.c:65-67`), is not defined in the frametable.h shown; the model reads it as a test of that bit of the flag word (`FrameTable.BitSet`).
- Cache maintenance in `load_segment_into_vspace` (`elf.c:113-116`) and the data-cache flush are not modelled.
- FrameTable.FrameTable.FrameAlloc: requires two frames on the untyped list when the retype succeeds; the last frame links to itself, and what frame_alloc does once it hands that frame out (the list head stays on an allocated frame) is not modelled.
- FrameTable.FrameTable.FrameNAlloc: requires enough frames on the untyped list for every retype that succeeds, for the same reason.
- Swap.SwapFile.LoadPage: the result of VOP_READ is only asserted in the source; a failed read is not modelled.
- Swap.SwapFile.Initialize: creating the swap file and writing its first byte through `vfs_open`/VOP_WRITE is I/O and is not modelled; the free list starts empty.
- Swap.SwapFile.TrySwapOut: requires at least one frame in the scanned range (`first_available_frame + 1 < max`); with none, the source's hand arithmetic is not modelled.
- Clock.TimerInterrupt: requires a non-empty queue; the source dereferences the NULL `peep_min` returns otherwise.
- Syscall.Mmap: when the call itself defines the heap, the condition for a reply is stated for an ordered region list only. There, acceptance is the same as hitting nothing. For an unordered list the contract gives only the fault when LazyHeapOk fails, because the list the scan then sees has the heap spliced in at a position the contract does not name.
- Clock.RegisterTimer: the ids it returns are not unique and may be 0 (Clock.DeadlineIdsCollide), against the promise of an unique id; remove_timer of a shared id removes whichever handler comes first in heap order. The model keeps the source's ids.
- Clock.RegisterTimer: the timer tags (a periodic flag and the invalid-tag default that returns CLOCK_R_FAIL after queueing) are not modelled; every handler is one-shot.
- Console.ConSoftc.DeliverPass: the store into user memory through `get_sos_virtual_address`, and the page fault taken when that address is unmapped, are not modelled; the delivered characters are the result.
- Syscall.Munmap: as_destroy_region is not part of this model; here it removes the region from the list.
- Elf.ElfLoad: requires every PT_LOAD header's file part to lie inside the ELF image; the source reads past the image unchecked, which is not modelled.
- Elf.LoadSegment: frame_alloc failing (frame == -1, only logged at `elf.c:94-96`) and the ignored `sos_map_frame` error are not modelled; the result is the sequence of page-sized copies the loop makes.
- ProcStack.InitProcessStack: the frame allocation, the mapping into SOS and into the process, and the capability copy and deletion around the aux vector (`main.c:193-248`, `main.c:284-293`) are not modelled.
- OpenFiles.OpenFile.Destroy: freeing the record is not modelled; the closed vnode is the result.
- Proc.GetProcess: the contents of `process_array` are not modelled; the result is the index into it.

## Findings

| source | as written | input that shows it | evidently intended | confidence | as-written member | corrected member |
|---|---|---|---|---|---|---|
| projects/aos/sos/src/frametable.h:16 | SET_PID ORs `pid << 4` into the flag without clearing the old field | a frame owned by pid 1 and then given to pid 2 reads back pid 3 | the PID field is replaced by the new pid | not executed | FrameTable.SetPidAccumulates | FrameTable.SetPidThenGetPid |
| projects/aos/sos/src/frametable.h:11-14 | CLOCK is bit 4, the lowest bit of the PID mask 0xFF0 | SET_PID with pid 1 sets CLOCK; clearing CLOCK then turns pid 1 into pid 0 | a reference bit outside the PID field (bit 2 here) | not executed | FrameTable.ClockBitAliasesPid | FrameTable.ClearClockKeepsPid |
| projects/aos/sos/src/pagetable.c:37-42 | get_offset shifts the level-2 mask `0x7fc0000000` by `48 - 9n` for every level | `get_offset(0x40000000, 3)` is 512, one past a 512-entry table | bits `39 - 9(n-1)` to `47 - 9(n-1)` of vaddr, in [0, 512) | not executed | PageTable.OffsetAsWrittenOutOfBounds | PageTable.Offset |
| projects/aos/sos/src/pagetable.c:44-57 | get_n_level_table indexes every level with `get_offset(vaddr, n)` | a walk to level 2 for vaddr 1 GiB takes root slot 1 instead of slot 0 | index level `i` with `get_offset(vaddr, i)` | not executed | PageTable.WalkAsWrittenUsesWrongLevel | PageTable.ShadowTables.NLevelTable |
| projects/aos/sos/src/addrspace.c:20-32 | the end `vaddr + memsize` is computed in 64-bit words before the USERSPACETOP test | a two-page region at 0xFFFFFFFFFFFFF000 wraps to 0x1000 and is accepted | reject regions whose end passes the top of user space | not executed | AddrSpace.CreateRegionAsWrittenWraps | AddrSpace.CreatedRegionCovers |
| projects/aos/sos/src/addrspace.c:63-79 | a region based at or below the head's base is linked after the head unchecked | inserting [0x1000, 0x2000) into a list headed by [0x1000, 0x2000) succeeds | reject any region that overlaps one already listed, keep the list ordered | not executed | AddrSpace.InsertAsWrittenAcceptsOverlap | AddrSpace.InsertOrdered |
| projects/aos/sos/src/mapping.c:223-233 | the untyped object enters ut_array only after the slot allocation succeeded | ut_alloc returns an object and cspace_alloc_slot returns seL4_CapNull: the clean-up never frees it | record the untyped object as soon as it is obtained | not executed | Mapping.StepAsWrittenLeaksUntyped | Mapping.RoundStep |
| projects/aos/sos/src/mapping.c:243-262 | a failed frame_n_alloc jumps to the clean-up with err still holding the retype's result | retype succeeds (seL4_NoError), frame_n_alloc returns -1: sos_map_frame reports success | report seL4_NotEnoughMemory | not executed | Mapping.StepAsWrittenReportsSuccess | Mapping.RoundStep |
| projects/aos/libclock/src/clock.c:109-115 | insert_handler refuses only when `n > MAX_HANDLER_SIZE` | with 32 handlers queued a 33rd is written to pq[33] of a 33-element array | refuse when `n >= MAX_HANDLER_SIZE` | not executed | Clock.InsertOverflowsAsWritten | Clock.InsertSlotInBounds |
| projects/aos/libclock/src/clock.c:140-154 | delete_id moves the last handler into the freed slot and only sinks it | deleting 11 from the heap 1, 10, 2, 11, 12, 3 leaves 3 below 10 | swim the moved handler when it is earlier than its parent | not executed | Clock.DeleteIdAsWrittenBreaksOrder | Clock.RepairedOrdered |
| projects/aos/libclock/src/clock.c:315-317 | `int difference = id - now` keeps only the low 32 bits of a 64-bit difference | a deadline 2^32 + 100 µs away counts as due at once | compare the full 64-bit difference with the tolerance | not executed | Clock.DueAsWrittenFiresEarly | Clock.TimerInterrupt |
| projects/aos/sos/src/syscall/syscall.c:319-320 | after a search that found no region, `region->vaddr` is read through NULL | munmap of an address no region starts at | reply with a failure value | not executed | Syscall.MunmapOfUnmappedFaults | Syscall.MunmapReply |
| projects/aos/sos/src/vfs/uio.c:74 | `left_size` is `region->vaddr + region->size - region->vaddr`, the whole region size | a 256-byte copy from one byte before the end of a one-page region runs past it | the bytes left in the region from `user` on | not executed | Uio.LeftSizeAsWrittenOverruns | Uio.LeftSizeStaysInRegion |
| projects/aos/sos/src/proc.c:21-25 | `pid < 0` never holds for an unsigned pid, so pid 0 passes the guard | get_process(0) indexes `process_array[0xFFFFFFFF]` | return NULL for pid 0 | not executed | Proc.GetProcessZeroOutOfRange | Proc.GetProcessAgrees |
