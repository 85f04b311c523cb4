# A verified model of the LightNightOS kernel

The project models the four parts of the small 64-bit kernel under `OS/OS/src/kernel` that carry its logic, in the
form the C code has (classes whose methods update fields and arrays in place), and proves each method against a
function on values. What the kernel promises is then proved about these functions, over every input and every run.

**Physical pages and the heap** (`memory.c`). `PageMap` gives the frames of a firmware memory map, `PageList` the free
list, `PageRuns` its runs, and `HeapSpec` the heap as a list of blocks. `HeapLaws`, `HeapOps` and `HeapRuns` prove what
every run of `malloc` and `free` keeps, and `HeapSteps` what a single one does; `HeapRoom` gives the room that one
`free` makes, and `HeapGaps` shows for which frames the heap is safe. `HeapImage` describes the headers as words of a
flat memory, with `next` as an address, and `Memory` is the code itself over that memory: every store goes to a computed
address, and every method also states that it changes only headers and free space, that is, no word of a payload in use
and no word outside the frames taken.

**The scheduler** (`scheduler.c`). `SchedSpec` gives the transitions, `SchedRuns` the invariant of every run together
with the heap, `SchedSteps` what each step does slot by slot, `SchedLaws` the round-robin bound, the exact turn, and the
ownership of the stacks. `ExitStack` and `ExitRun` are about `process_exit`, which goes on running on the stack it has
freed. `Scheduler` is the code; it allocates stacks from an object of class `Memory`.

**Numbers and the console** (`console.c`, and the hexadecimal printer of `interrupts.c`). `NumberText`, `NumberReads`
and `Formatter` are the integer formatter and a reader of what it writes. `Screen` and `ScreenLaws` are the console as a
value, `CursorLaws` what each operation does to cursor and cells, `Terminals` runs over several terminals, `CornerRun` a
run to the corner of the screen, `HistoryRing` the ring of saved lines, `PrintedNumber` what a number printed leaves
there, and `Console` the code over the screen, the terminal buffers, the backup and the ring.

**The shell** (`shell.c`). `CText` is the C-string loops of `lib.h`, `Tokens` the splitting of a line into words,
`ShellSpec` and `ShellLaws` the line editor and the history, `Shell` the code over its buffers.

Where the code and what one would expect of it differ, the code is modelled as it is and the exact condition is
proved:

- `free` merges neighbours of the list without comparing addresses. All runs stay inside the frames taken if and only if
  the frames are consecutive (`HeapGaps.SafeIffContiguous`).
- The page descriptors are placed in a usable region without being reserved. They stay clear of all frames if and only
  if they end at or below the first frame of that region, or it has none (`PageMap.DescriptorsClear`). Otherwise the
  first `alloc_page` may zero them, as on the map of `PageMap.DescriptorsOverlap`; so `InitMemory` requires it, and
  `malloc` and `free` are proved to change no descriptor.
- When the last process exits, the scheduler goes on if and only if a frame is left, or a free block has room for a
  stack, or the block it frees, together with its free neighbours, has room for a stack and one more header
  (`SchedLaws.LastExit`). A run after which it stops, although a whole stack is freed, is `SchedLaws.LastExitStops`.
- `process_exit` frees the stack it runs on, and with no other process left allocates one for an idle process. That puts a
  header into the stack still in use if and only if the block before it is free but too small for a stack, no earlier
  block has room for one, and what the free has merged is large enough to be split (`ExitRun.ExitOnStack`). A run that
  gets there is `ExitRun.ExitHitsReached`. Otherwise nothing that the running code stores there harms the heap, and
  nothing that exit does to the heap changes what it has stored (`SchedulerC.Scheduler.ProcessExit`).
- A glyph printed past the last column of the last row goes to row 25 of its terminal, which is the first cell of the
  next one, before the screen scrolls (`ScreenLaws.PrintIsolation`, `ScreenLaws.CornerLosesGlyph`). Printing 24
  newlines and 81 glyphs to a cleared screen does so (`CornerRun.CornerReached`).
- UP and DOWN bring back the line being typed if and only if it is not empty or the buffer starts with a NUL, since ENTER
  does not clear the buffer (`ShellLaws.UpsDownsRestore`, `ShellLaws.EmptyLineNotRestored`).
- The first UP shows the oldest entry of the history, not the newest, and ENTER does not end the walk through it
  (`ShellLaws.UpsShow`, `ShellLaws.EnterKeepsPlace`).

`dafny verify dfyconfig.toml` checks the whole project.

## Assumptions

- `Memory.Valid` holds for consecutive frames, as one usable region gives them (`PageMap.OneRegionContiguous`), with
  `malloc` as the only caller of `alloc_page` and no caller of `free_page`, which is so in the repository.
- The firmware's map is sorted, without overlaps and without address overflow, where a result needs that; the modelled
  memory covers every usable region, and its addresses do not wrap.
- The page descriptors are kept in an array of their own. The words of memory at their addresses are modelled too, and
  `Malloc` and `Free` are proved to change none of them.
- A glyph printed at the corner of the last terminal is stored behind `tty_buf`, in whatever the compiler has put there;
  the model has a spare cell in this place. The same goes for the cell behind the 2000 cells of the screen.
- `free` is called with NULL, with a pointer outside the heap range, or with the payload address of a listed block.
- After `process_exit` has freed its stack, the code that runs on it, its calls included, stores only to the 16384 bytes
  of that stack. `ProcessExit` takes these stores as a parameter, before and after the allocation; those that happen during
  `free` and `malloc` are counted to either side. A process that goes on after `process_exit` has stopped the scheduler
  is not part of the model.
- The console starts with all cursor rows on the screen, as `clear_screen` and the zero-initialised terminals leave them.
- Printing by kernel code (`malloc_debug`, `printk`) is not part of the state of the heap, the scheduler or the shell.

## Model

| member | source | states |
|---|---|---|
| `PageMap.CountMatchesFill` | OS/OS/src/kernel/memory.c:35-47 | the counting pass and the filling pass agree on every map: the descriptor array is exactly filled |
| `PageMap.EntryFramesExact` | OS/OS/src/kernel/memory.c:39-41 | a frame comes from an entry exactly if it is 2 MiB-aligned, the entry is of type 1, and the frame lies wholly inside it |
| `PageMap.FrameListExact` | OS/OS/src/kernel/memory.c:74-101 | the free list holds exactly the aligned 2 MiB frames that lie wholly inside some type-1 range |
| `PageMap.FramesDisjointAscending` | OS/OS/src/kernel/memory.c:74-101 | over a sorted map without overlaps the frames ascend and are pairwise disjoint |
| `PageMap.OneRegionContiguous` | OS/OS/src/kernel/memory.c:74-101 | if only one region has room for frames, the frames of the list are consecutive |
| `PageMap.FramesInHeapRange` | OS/OS/src/kernel/memory.c:108-132 | all frames lie in the recorded heap range, whose lower bound is the first of them |
| `PageMap.PlacementFound` | OS/OS/src/kernel/memory.c:49-64 | on a map of at most 32 entries the search for room for the descriptors succeeds exactly if some entry has type 1 |
| `PageMap.NothingUsable` | OS/OS/src/kernel/memory.c:66-69 | when the search fails there was no frame to lose |
| `PageMap.DescriptorsClear` | OS/OS/src/kernel/memory.c:56-59 | the descriptors, which are not reserved, stay clear of every frame if and only if they end at or below the first frame of their region, or that region has none |
| `PageMap.DescriptorsOverlap` | OS/OS/src/kernel/memory.c:49-64 | the other case exists: a sorted map of one region with four consecutive frames whose descriptors lie inside the first frame |
| `PageMap.AlignUpLeast` | OS/OS/src/kernel/memory.h:25 | PAGE_2M_ALIGN gives the least multiple of 2 MiB that is not below its argument |
| `PageMap.Placement` | OS/OS/src/kernel/memory.c:49-64 | the entry chosen for the descriptors is the first one of type 1 that is long enough |
| `PageMap.HeapEnd` | OS/OS/src/kernel/memory.c:112-121 | the upper bound of the heap range is the largest end of a type-1 entry |
| `PageMap.BootHeapOk` | OS/OS/src/kernel/memory.c:28-147 | over a sorted, non-overlapping map with consecutive frames, the state init_page leaves is a well-formed empty heap |
| `PageMap.BootHeapIs` | OS/OS/src/kernel/memory.c:108-132 | that heap is empty, over the frames of the map in order, from the first of them to the largest end of a type-1 entry |
| `PageList.TakeOk` | OS/OS/src/kernel/memory.c:155-159 | taking a page keeps the free list well formed, and the page is no longer on it |
| `PageList.TakeExact` | OS/OS/src/kernel/memory.c:155-159 | alloc_page takes the head off the list, clears its link and sets its count to one; every other descriptor stays |
| `PageList.GiveExact` | OS/OS/src/kernel/memory.c:179-187 | free_page counts down, from 0 to the largest 32-bit number, and exactly at 0 puts the page in front of the list; every other descriptor stays |
| `PageList.GiveOk` | OS/OS/src/kernel/memory.c:179-187 | giving back a page keeps the list well formed if and only if the page is not already on it with a count of one |
| `PageList.GiveUndoesTake` | OS/OS/src/kernel/memory.c:149-188 | free_page undoes alloc_page: the same list in the same order |
| `PageList.GiveTwice` | OS/OS/src/kernel/memory.c:179-187 | the unsigned count wraps, so a page whose count is zero is never put on the list a second time |
| `PageRuns.InitPagesOk` | OS/OS/src/kernel/memory.c:74-101 | the pages init_page leaves are all listed with count zero, and nobody holds one |
| `PageRuns.PageRunOk` | OS/OS/src/kernel/memory.c:149-188 | over every run of alloc_page and free_page by callers that give back only what they hold: the list stays well formed, listed pages have count zero and held ones count one, and each page is listed once or held, but not both |
| `PageRuns.GivesAreSafe` | OS/OS/src/kernel/memory.c:173-188 | after any such run a page that is held is not on the list, and giving it back puts it in front |
| `PageFill.ChainIsList` | OS/OS/src/kernel/memory.c:85-100 | descriptors linked one behind the other form the free list of exactly the frames stored in them |
| `PageFill.FrameListStep` | OS/OS/src/kernel/memory.c:74-101 | entry by entry, the filling pass adds the frames of that entry, and never more than the array holds |
| `PageFill.FrameAligned` | OS/OS/src/kernel/memory.c:132 | aligning the first frame again changes nothing |
| `HeapSpec.FirstFit` | OS/OS/src/kernel/memory.c:224-251 | the block chosen is the first of the list that is free and has room for the rounded size plus a header |
| `HeapOps.RoundedBounds` | OS/OS/src/kernel/memory.c:196-203 | rounding adds at most 7 bytes, gives a multiple of 8, and keeps an allowed size allowed |
| `HeapOps.FreshFits` | OS/OS/src/kernel/memory.c:259-268 | a fresh frame fits every allowed request and is always split |
| `HeapOps.CarveLaws` | OS/OS/src/kernel/memory.c:226-241 | carving a free block gives one block in use of the rounded size up to 56 bytes more, tiles the old extent, and leaves no free neighbours |
| `HeapOps.MallocNull` | OS/OS/src/kernel/memory.c:190-201 | malloc fails exactly if the size is 0 or above the maximum, or no block fits and the frame list is empty; then nothing changes |
| `HeapOps.MallocFirstFit` | OS/OS/src/kernel/memory.c:224-251 | malloc carves the first block that fits, and takes a frame only if none does |
| `HeapSteps.MallocRefuses` | OS/OS/src/kernel/memory.c:191-201 | malloc refuses exactly the sizes the code names: 0 and more than 2097000 bytes |
| `HeapSteps.MallocServes` | OS/OS/src/kernel/memory.c:203-248 | the first free block with 24 bytes more than the rounded request serves it: cut to exactly the rounded request if it has more than 56 bytes beyond it, else handed out whole; nothing else changes |
| `HeapSteps.MallocGrowsBy` | OS/OS/src/kernel/memory.c:254-286 | with no such block the next frame is hung behind the list and serves the request; with no frame left malloc fails |
| `HeapOps.MallocOk` | OS/OS/src/kernel/memory.c:190-287 | malloc keeps the heap well formed: the list tiles the frames taken, without free neighbours |
| `HeapOps.MallocGrants` | OS/OS/src/kernel/memory.c:226-286 | malloc adds exactly one block in use, at the returned pointer, which is 8-aligned and in the heap range, with a recorded size between the rounded request and 56 more, below 2 MiB |
| `HeapOps.SourceClear` | OS/OS/src/kernel/memory.c:224-251 | what malloc carves overlaps no block in use |
| `HeapLaws.CoalesceLaws` | OS/OS/src/kernel/memory.c:326-339 | the single merging pass keeps the tiling and every block in use and leaves no two free neighbours |
| `HeapLaws.CanonicalForm` | OS/OS/src/kernel/memory.c:326-339 | a list without free neighbours is determined by its extent and its blocks in use |
| `HeapOps.ReleaseLaws` | OS/OS/src/kernel/memory.c:323-339 | releasing a block removes exactly that block from those in use |
| `HeapOps.FreeOk` | OS/OS/src/kernel/memory.c:289-344 | free of NULL, of a pointer outside the range or of a listed one keeps the heap well formed |
| `HeapOps.FreeReleases` | OS/OS/src/kernel/memory.c:306-339 | neither rejection test of free refuses the payload of a block in use: exactly that block is released and its bytes are counted |
| `HeapSteps.FreeIgnores` | OS/OS/src/kernel/memory.c:289-321 | free leaves the heap alone exactly for NULL, an address outside the heap range, and a block of more than 2 MiB |
| `HeapSteps.FreeCounts` | OS/OS/src/kernel/memory.c:323-339 | free adds the size of the block to the freed total and leaves frames, range and allocated total alone |
| `HeapOps.FreeUndoesMalloc` | OS/OS/src/kernel/memory.c:190-344 | freeing what malloc has just returned restores the list; if a frame was taken, the result is the old list coalesced with the whole frame |
| `HeapOps.FreesCommute` | OS/OS/src/kernel/memory.c:323-339 | freeing two blocks in either order leaves the same heap, totals included |
| `HeapOps.DoubleFree` | OS/OS/src/kernel/memory.c:318-339 | freeing a listed free block again moves nothing but counts its bytes again, unless it has grown beyond 2 MiB and is refused |
| `HeapParts.FirstPageSame` | OS/OS/src/kernel/memory.c:209-222 | making the first page a free block before the search comes to the same as taking a frame after it |
| `HeapParts.OutsideFrames` | OS/OS/src/kernel/memory.c:56-59 | memory that is clear of all frames, such as the descriptors, keeps every word when only words within the extent of the heap change |
| `HeapRoom.ReleaseMerges` | OS/OS/src/kernel/memory.c:323-339 | freeing a block of a list without free neighbours replaces it and its free neighbours by one free block, with a header more for each neighbour, and leaves the blocks on both sides alone |
| `HeapRoom.RoomAfterRelease` | OS/OS/src/kernel/memory.c:323-339 | after freeing a block, a request fits if and only if it fitted before or the freed block with its free neighbours has room for it and a header |
| `HeapRuns.RunOk` | OS/OS/src/kernel/memory.c:190-344 | over every run of malloc and free: the list tiles exactly the frames taken, no two free blocks are neighbours, and the live pointers are exactly the payloads of the blocks in use |
| `HeapRuns.LivePayloadsDisjoint` | OS/OS/src/kernel/memory.c:190-344 | live payloads are pairwise disjoint and as long as requested |
| `HeapRuns.LivePayloadsAvoidHeaders` | OS/OS/src/kernel/memory.c:190-344 | live payloads overlap no header |
| `HeapRuns.OkPayloadsInFrames` | OS/OS/src/kernel/memory.c:190-344 | every byte of a live payload lies in a frame that was taken |
| `HeapRuns.AllFreed` | OS/OS/src/kernel/memory.c:326-339 | with nothing live the heap is one free block over all frames taken |
| `HeapRuns.FreeAllInAnyOrder` | OS/OS/src/kernel/memory.c:326-339 | freeing all live pointers, in any order, leaves one free block over all frames taken |
| `HeapRuns.SameLiveSameHeap` | OS/OS/src/kernel/memory.c:190-344 | two runs that end with the same blocks in use and as many frames end with the same list |
| `HeapRuns.Conservation` | OS/OS/src/kernel/memory.c:149-339 | over every run the sizes and headers of the list sum to 2 MiB times the frames taken, and allocated <= live + freed <= allocated + 56 per successful malloc |
| `HeapRuns.MallocAccounts` | OS/OS/src/kernel/memory.c:242-282 | malloc adds the rounded size to the allocated total and the granted size to the live bytes |
| `HeapRuns.FreeAccounts` | OS/OS/src/kernel/memory.c:323-324 | free moves the size of the block from the live bytes to the freed total |
| `HeapGaps.GapBreaksSafety` | OS/OS/src/kernel/memory.c:326-339 | a concrete run, for every gap between two frames, that hands out bytes of no frame, because free merges list neighbours without comparing addresses |
| `HeapGaps.SafeIffContiguous` | OS/OS/src/kernel/memory.c:326-339 | all runs of malloc and free hand out only bytes of the frames taken if and only if the frames are consecutive |
| `HeapImage.HeadersReplaceOne` | OS/OS/src/kernel/memory.c:323-335 | one header written at a block, with the link of the last block it replaces, gives the list with these blocks replaced |
| `HeapImage.HeaderLayout` | OS/OS/src/kernel/memory.c:18-22 | a header in memory is size at its address, next 8 bytes behind, and the flag in the low half of the word 16 bytes behind |
| `HeapImage.CarveSplit` | OS/OS/src/kernel/memory.c:227-236 | the two header stores of a split give the split list in memory and change no word of a payload that the new headers are clear of, such as those in use, and no word outside the extent |
| `HeapImage.AppendBlock` | OS/OS/src/kernel/memory.c:259-266 | the stores that hang a new block behind the list give the longer list in memory and change no word of a payload that the new headers are clear of, such as those in use, and no word outside the extent |
| `HeapImage.SplitLast` | OS/OS/src/kernel/memory.c:268-276 | the stores that split the new block give the split list in memory and change no word of a payload that the new headers are clear of, such as those in use, and no word outside the extent |
| `HeapImage.ZeroedKeeps` | OS/OS/src/kernel/memory.c:161-165 | zeroing a frame that lies behind the list changes no header, no live payload and no word outside the list and that frame |
| `HeapImage.StoreKeepsHeaders` | OS/OS/src/kernel/memory.c:18-22 | a word of a live payload is part of no header |
| `HeapImage.StoresHarmless` | OS/OS/src/kernel/memory.c:18-22 | every store into an extent leaves the list in memory intact if and only if no header lies in that extent |
| `HeapImage.NextNull` | OS/OS/src/kernel/memory.c:224-251 | following next visits exactly the listed blocks: it is NULL at the last one only, so the chain has no cycle |
| `MemoryC.Memory.InitPage` | OS/OS/src/kernel/memory.c:28-147 | the two passes over the map leave a free list of exactly the frames of the map, and the recorded range; without room for the descriptors everything stays zero |
| `MemoryC.Memory.InitMemory` | OS/OS/src/kernel/memory.c:28-147 | from zeroed statics, a sorted map with consecutive frames and the descriptors below them leaves a valid heap over all its frames |
| `MemoryC.Memory.FillPass` | OS/OS/src/kernel/memory.c:74-101 | the filling loop links one descriptor for each frame, in order, and counts them |
| `MemoryC.Memory.AllocPage` | OS/OS/src/kernel/memory.c:149-171 | the first free page is taken and its frame zeroed; NULL, with nothing changed, exactly if the list is empty |
| `MemoryC.Memory.FreePage` | OS/OS/src/kernel/memory.c:173-188 | the page list becomes what giving back the page prescribes, for NULL and every page; it stays well formed if and only if the page was not on it with a count of one |
| `MemoryC.Memory.Malloc` | OS/OS/src/kernel/memory.c:190-287 | in flat memory malloc computes the specified heap and pointer and changes only headers and free space: no word of a payload live before, no word outside the frames taken, and so no descriptor |
| `MemoryC.Memory.Search` | OS/OS/src/kernel/memory.c:224-251 | malloc takes the first block of the list that fits, or a new frame, and changes no word of the payloads that the new headers spare and no word outside the extent of the heap |
| `MemoryC.Memory.FindFit` | OS/OS/src/kernel/memory.c:224-251 | the loop that follows next pointers ends at the first block that fits, or at NULL with the last block of the list as the previous one |
| `MemoryC.Memory.MallocSparing` | OS/OS/src/kernel/memory.c:190-287 | malloc also keeps every word of any extent that no header of the new heap and no new frame meets |
| `MemoryC.Memory.Grow` | OS/OS/src/kernel/memory.c:259-286 | a fresh frame is linked behind the list and split as specified; no word of a payload that the new headers spare and no word outside the extent of the heap changes |
| `MemoryC.Memory.Free` | OS/OS/src/kernel/memory.c:289-344 | in flat memory free computes the specified heap, refuses what it should refuse, and changes only headers and free space: no word of a live payload, no word outside the frames taken, and so no descriptor |
| `MemoryC.Memory.MergePass` | OS/OS/src/kernel/memory.c:326-339 | the merging loop over next pointers leaves the coalesced list in memory and terminates; no word of a payload that the new headers spare and no word outside the extent of the heap changes |
| `MemoryC.Memory.Store` | OS/OS/src/kernel/memory.c:190-344 | a client storing into a payload it holds keeps the heap valid |
| `MemoryC.Memory.FramesAccounted` | OS/OS/src/kernel/memory.c:149-188 | frames taken plus total_free_pages is the initial number of pages, and headers and sizes sum to the bytes taken |
| `SchedRuns.BootOk` | OS/OS/src/kernel/scheduler.c:7-11 | the zero-initialised table over a fresh heap satisfies the invariant |
| `SchedRuns.CreateCases` | OS/OS/src/kernel/scheduler.c:74-106 | process_create either changes nothing, also when the stack cannot be allocated, or puts a ready process with a fresh stack into a vacant slot |
| `SchedSteps.CreateFields` | OS/OS/src/kernel/scheduler.c:74-106 | process_create fails exactly if no slot is unused or malloc fails; otherwise the first unused slot is ready with the next pid, entry in rbx, argument in r12, the wrapper in rip, zeros elsewhere and rsp the highest multiple of 16 in its stack, and no other slot changes |
| `SchedSteps.FirstRunCalls` | OS/OS/src/kernel/scheduler.c:15-30 | over any run after its creation, when the turn of a process comes for the first time process_wrapper calls its entry with its argument |
| `SchedRuns.YieldedOk` | OS/OS/src/kernel/scheduler.c:108-147 | process_yield keeps the invariant |
| `SchedSteps.YieldContexts` | OS/OS/src/kernel/scheduler.c:108-147 | a yield that switches stores the given context into the process that yields and changes no other context; one that does not switch changes none; pids and stacks stay |
| `SchedSteps.YieldStates` | OS/OS/src/kernel/scheduler.c:108-147 | with another process ready, the one that yields is ready afterwards and another one runs; else nothing changes |
| `SchedSteps.ContextKept` | OS/OS/src/kernel/scheduler.c:65-255 | over any run a live process keeps its pid, stack and context until its turn comes |
| `SchedSteps.ResumesWhereItYielded` | OS/OS/src/kernel/scheduler.c:108-147 | from the yield that leaves a process until its turn comes again, over any run, its context is the one stored by that yield |
| `SchedRuns.StartedOk` | OS/OS/src/kernel/scheduler.c:162-205 | scheduler_start keeps the invariant, also when no stack for an idle process can be had |
| `SchedSteps.StartPicks` | OS/OS/src/kernel/scheduler.c:162-205 | scheduler_start makes the first ready process run and changes nothing else; a started scheduler is left alone |
| `SchedSteps.StartIdle` | OS/OS/src/kernel/scheduler.c:177-180 | with no ready process the one created runs idle_process(0); if none can be created nothing changes |
| `SchedRuns.VacatedOk` | OS/OS/src/kernel/scheduler.c:214-226 | exit gives back the stack and the slot of the exiting process and leaves no slot running |
| `SchedRuns.ExitedOk` | OS/OS/src/kernel/scheduler.c:207-255 | process_exit takes table and heap, as values, from a state that meets the invariant to one that does, also when no idle process can be created; what the code that still runs on the freed stack may store is the matter of ExitOnStack |
| `SchedSteps.ExitHandsOver` | OS/OS/src/kernel/scheduler.c:228-254 | the first ready process other than the exiting one runs next, the slot of the exiting one is cleared, and every other slot stays as it is |
| `SchedSteps.ExitIdles` | OS/OS/src/kernel/scheduler.c:238-250 | when the last process exits, idle_process(0) runs in slot 0 with the next pid, or the scheduler stops and every slot is unused |
| `SchedSteps.ExitOutside` | OS/OS/src/kernel/scheduler.c:210-212 | without a current process exit does nothing |
| `ExitStack.ReleaseClear` | OS/OS/src/kernel/memory.c:323-339 | freeing a stack leaves no header in it |
| `ExitStack.HitsExactly` | OS/OS/src/kernel/scheduler.c:219-239 | the malloc that follows puts a header into the freed stack if and only if the block before it was free and too small for a stack, no earlier block has room for one, and the freed stack with its free neighbours is large enough to be split |
| `ExitStack.VacateStores` | OS/OS/src/kernel/scheduler.c:219-226 | between the free and the malloc every store into the freed stack leaves the heap intact |
| `ExitStack.ExitStores` | OS/OS/src/kernel/scheduler.c:219-254 | in any memory that holds the heap after exit, every store into the freed stack leaves that heap intact if and only if exit has put no header there |
| `ExitRun.ExitOnStack` | OS/OS/src/kernel/scheduler.c:207-255 | in every reachable state with a current process: exit leaves no header in the stack it still runs on, and every store there is harmless, if and only if another process is left or the case of HitsExactly does not apply |
| `ExitRun.ExitHitsReached` | OS/OS/src/kernel/scheduler.c:207-255 | that case is reached: a small block allocated before the only process and freed before it starts makes its exit put a header into the stack it runs on |
| `SchedRuns.AfterOk` | OS/OS/src/kernel/scheduler.c:65-255 | every event, including malloc and free by processes, keeps the invariant |
| `SchedRuns.RunEvents` | OS/OS/src/kernel/scheduler.c:65-255 | after every run: once started exactly one slot is running and it is the current one, otherwise none is; live pids are non-zero, distinct and below the next pid; a slot is unused if and only if its pid is 0 if and only if it has no stack; every stack is a live heap block |
| `SchedLaws.StackBlock` | OS/OS/src/kernel/scheduler.c:81-88 | the stack of each live process is a heap block in use of at least 16384 bytes |
| `SchedLaws.StacksDisjoint` | OS/OS/src/kernel/scheduler.c:81-88 | the stacks of two live processes do not overlap |
| `SchedSteps.CountIsStacks` | OS/OS/src/kernel/scheduler.c:257-265 | in every reachable state the number of processes is the number of live blocks that no process holds for itself |
| `SchedLaws.InitialStackPointer` | OS/OS/src/kernel/scheduler.c:81-101 | a new process starts with a 16-aligned rsp inside its own fresh block |
| `SchedLaws.ExitReleases` | OS/OS/src/kernel/scheduler.c:214-226 | exit releases exactly the block of the exiting process |
| `SchedLaws.OtherStacksStay` | OS/OS/src/kernel/scheduler.c:214-226 | the stack of every other live process is still a block in use after exit has freed one |
| `SchedLaws.LastExit` | OS/OS/src/kernel/scheduler.c:238-247 | when the last process exits, the scheduler goes on if and only if, before the call, a frame is left, or a free block has room for a stack, or the block to be freed with its free neighbours has room for a stack and one more header |
| `SchedLaws.LastExitStops` | OS/OS/src/kernel/scheduler.c:238-247 | the other case is reached: after a process is created and started and takes the rest of the only frame, its exit frees its stack and yet stops the scheduler |
| `SchedLaws.NothingLeaks` | OS/OS/src/kernel/scheduler.c:214-226 | with no process left and nothing held, all memory taken is one free block |
| `SchedLaws.OthersUndisturbed` | OS/OS/src/kernel/scheduler.c:74-255 | no event touches pid, stack or saved context of a live process that is not current |
| `SchedLaws.YieldApproaches` | OS/OS/src/kernel/scheduler.c:117-144 | one yield makes a ready process current or brings the current slot strictly closer to it |
| `SchedLaws.RoundRobin` | OS/OS/src/kernel/scheduler.c:108-147 | in any stretch without an exit a ready process becomes current within its cyclic distance, at most 7, of yields, whatever is created or allocated in between |
| `SchedLaws.YieldAdvances` | OS/OS/src/kernel/scheduler.c:117-144 | one yield moves a ready process up exactly one place in the queue |
| `SchedLaws.ExactTurn` | OS/OS/src/kernel/scheduler.c:117-144 | with nothing created in between, a ready process becomes current after exactly as many yields as its place in the queue |
| `SchedulerC.Scheduler.constructor` | OS/OS/src/kernel/scheduler.c:7-11 | all slots unused, no current process, next pid 1 |
| `SchedulerC.Scheduler.AllocSlot` | OS/OS/src/kernel/scheduler.c:65-72 | the first unused slot, or -1 |
| `SchedulerC.Scheduler.ProcessCreate` | OS/OS/src/kernel/scheduler.c:74-106 | table, heap and memory become what the transition prescribes (see SchedSteps.CreateFields); the heap stays valid, and the stacks of all processes keep every word |
| `SchedulerC.Scheduler.ProcessYield` | OS/OS/src/kernel/scheduler.c:108-147 | the table becomes what the yield transition prescribes, for every table (see SchedSteps.YieldContexts) |
| `SchedulerC.Scheduler.ScanFrom` | OS/OS/src/kernel/scheduler.c:121-130 | the first ready slot at or cyclically behind the start |
| `SchedulerC.Scheduler.SchedulerStart` | OS/OS/src/kernel/scheduler.c:162-205 | table and heap become what the start transition prescribes (see SchedSteps.StartPicks and StartIdle), and the stacks of all processes keep every word |
| `SchedulerC.Scheduler.CountReady` | OS/OS/src/kernel/scheduler.c:169-175 | the number of ready slots, which is 0 exactly if the search for the first one fails |
| `SchedulerC.Scheduler.ProcessExit` | OS/OS/src/kernel/scheduler.c:207-255 | for all stores by the code that goes on running on the freed stack: table and heap become what the exit transition prescribes (see SchedSteps.ExitHandsOver and ExitIdles), the stacks of all other processes keep every word, and, unless exit puts a header into it, the freed stack holds what that code has stored and the heap is valid |
| `SchedLaws.CurrentPidNames` | OS/OS/src/kernel/scheduler.c:155-160 | in every reachable state, until the pid counter wraps, the current pid is 0 exactly while the scheduler is not started; a live process is running if and only if its pid is the current one |
| `SchedulerC.Scheduler.GetProcessCount` | OS/OS/src/kernel/scheduler.c:257-265 | the number of slots in use |
| `NumberText.TextWidth` | OS/OS/src/kernel/console.c:402-429 | the text is max(width, sign + prefix + max(precision, digits)) characters long |
| `NumberReads.TextReadsBack` | OS/OS/src/kernel/console.c:390-457 | the text is blanks, sign, prefix, digits, blanks: the sign is a minus exactly for numbers that are negative under SIGN, else plus or blank as PLUS and SPACE ask; the prefix is 0x, 0X or 0 as SPECIAL, base and SMALL ask; sign and digits make the number; it is filled with blanks, or zeros behind the sign, exactly up to the width |
| `NumberReads.ReadsBack` | OS/OS/src/kernel/console.c:390-457 | an independent reader of blanks, sign, prefix and digits gets back the number, signed under SIGN and unsigned otherwise, in every base, width and precision |
| `NumberText.DigitsReadBack` | OS/OS/src/kernel/console.c:419-426 | the digits are digits of the base and read back to the number, in every base from 2 to 36 |
| `NumberText.NoLeadingZero` | OS/OS/src/kernel/console.c:422-425 | the digits of a number that is not 0 start with no zero |
| `NumberText.ScratchSuffices` | OS/OS/src/kernel/console.c:391-426 | a 64-bit number has at most 64 digits in any base, and at most 20 in base ten |
| `NumberText.HexFormsAgree` | OS/OS/src/kernel/interrupts.c:141-151 | the zero-padded, 16-wide, upper-case hexadecimal form of number is what vga_print_hex64 shows |
| `FormatterC.Number` | OS/OS/src/kernel/console.c:390-457 | number stores exactly the specified text and returns the position behind it, or NULL for a base it does not know |
| `FormatterC.WidthInRange` | OS/OS/src/kernel/console.c:402-454 | the width counter stays within a 32-bit int at each step if and only if it does at the last |
| `FormatterC.DigitLoop` | OS/OS/src/kernel/console.c:419-426 | the digit loop leaves the digits in reverse in 64 scratch cells that always suffice |
| `FormatterC.EmitTail` | OS/OS/src/kernel/console.c:446-454 | the padding loops with their shared counter store zeros, digits and trailing blanks in this order |
| `FormatterC.SkipAtoi` | OS/OS/src/kernel/console.c:379-386 | the value of the decimal digits at the position, and the position behind them |
| `FormatterC.AtoiReadsDigits` | OS/OS/src/kernel/console.c:379-386 | the parser reads back what the formatter prints in base ten |
| `FormatterC.AtoiInRange` | OS/OS/src/kernel/console.c:379-386 | no value the parser computes on the way leaves a 32-bit int if and only if there is room for the result and 48 more |
| `FormatterC.VgaPrintHex64` | OS/OS/src/kernel/interrupts.c:141-151 | the sixteen cells hold the sixteen hexadecimal digits, and no other cell changes |
| `ScreenLaws.ClearAgrees` | OS/OS/src/kernel/console.c:184-186 | after console_init all copies of the screen agree, whatever the screen held |
| `CursorLaws.ClearBlanks` | OS/OS/src/kernel/console.c:243-262 | clear_screen leaves 2000 blanks in the colour set on the screen and in the terminal, the cursor in the first cell and no view, and saves the 25 old rows in order |
| `ScreenLaws.DoAgrees` | OS/OS/src/kernel/console.c:147-312 | every operation keeps the agreement: the backup equals the buffer of the current terminal, and the screen equals both unless the history is viewed |
| `ScreenLaws.RunOps` | OS/OS/src/kernel/console.c:147-364 | so does every run of operations |
| `Terminals.SwitchBack` | OS/OS/src/kernel/console.c:347-364 | switching to another terminal and back restores screen, buffers, backup, cursor and colour |
| `Terminals.OwnTerm` | OS/OS/src/kernel/console.c:147-312 | an operation does the same to any two consoles whose current terminals agree in buffer, cursor and colour, whatever else they hold |
| `Terminals.Isolated` | OS/OS/src/kernel/console.c:147-364 | after any run, a terminal is as if only what was done while it was current had been done, on a console of its own, unless a glyph at the corner of the terminal before it has landed in it |
| `Terminals.OnlyOwnOps` | OS/OS/src/kernel/console.c:147-364 | two runs that do the same while a terminal is current leave it the same, whatever they do on the others |
| `ScreenLaws.ViewingLosesNothing` | OS/OS/src/kernel/console.c:147-177 | entering, scrolling and leaving the history view keeps buffers, backup and history, and ends with the same screen |
| `ScreenLaws.PrintLeavesView` | OS/OS/src/kernel/console.c:268-274 | a character printed while the history is viewed first brings back what the terminal holds |
| `ScreenLaws.PrintElsewhere` | OS/OS/src/kernel/console.c:291-305 | printing changes the buffer of another terminal only in its first cell, and only for a glyph printed past the last column of the last row of the terminal before it |
| `ScreenLaws.PrintIsolation` | OS/OS/src/kernel/console.c:291-305 | printing leaves all other terminals alone if and only if it is not at that corner of a terminal that has a successor, or the cell hit already holds the glyph |
| `ScreenLaws.CornerLosesGlyph` | OS/OS/src/kernel/console.c:291-305 | at that corner the glyph itself is lost to the scrolling |
| `CornerRun.CornerReached` | OS/OS/src/kernel/console.c:291-305 | the corner is reached from every state by clear_screen, 24 newlines and 80 glyphs, which leave the other terminals alone; the next glyph then puts itself into the first cell of the next terminal and changes nothing else there |
| `ScreenLaws.GlyphLands` | OS/OS/src/kernel/console.c:291-301 | anywhere else a glyph lands at the cursor, wrapped if need be, and nothing else of the terminal changes |
| `CursorLaws.CursorAfter` | OS/OS/src/kernel/console.c:276-305 | the cursor after each character, by row and column: newline, return, tab, glyph, glyph past the last column, and all of these where the screen scrolls |
| `CursorLaws.TextLands` | OS/OS/src/kernel/console.c:268-322 | glyphs that fit the screen, printed from any cursor, take exactly the consecutive cells from the cursor on, across the ends of rows, and no other cell changes |
| `CursorLaws.PrintScrolls` | OS/OS/src/kernel/console.c:216-241 | a newline on the last row and a glyph at the corner move all rows up, blank the last one in the colour printed and save the row that leaves; other control characters change no cell |
| `CursorLaws.PrintKeeps` | OS/OS/src/kernel/console.c:268-312 | printing keeps the terminal and its colour, and leaves the history view for good |
| `CursorLaws.GlyphAtIs` | OS/OS/src/kernel/console.c:291-296 | a glyph goes to the cell of the cursor, or to the first one of the next row if the column is past the last |
| `CursorLaws.CellParts` | OS/OS/src/kernel/console.c:179-182 | background and foreground are the high and low half of the colour byte, which is the high byte of a cell |
| `ScreenLaws.ViewRow` | OS/OS/src/kernel/console.c:100-126 | row r of the view is saved line w - min(24, count) - offset + r, with the cells that are not printable blanked |
| `ScreenLaws.ViewMoves` | OS/OS/src/kernel/console.c:147-177 | entering shows the newest lines; the offset moves by one and stays between 0 and max(0, count - 24); going below 0 leaves the view and shows the terminal again |
| `CursorLaws.EveryLineInReach` | OS/OS/src/kernel/console.c:90-177 | every one of the last 1000 lines saved can be brought into the view |
| `CursorLaws.ViewPrompt` | OS/OS/src/kernel/console.c:128-142 | below the lines of the view stands the prompt, in the middle of its row in yellow on black, and else only blanks |
| `CursorLaws.ViewKeepsCursor` | OS/OS/src/kernel/console.c:147-177 | entering, moving and leaving the view keep cursor, colour and terminal; with nothing saved it is not entered |
| `CursorLaws.CursorKeys` | OS/OS/src/kernel/console.c:624-664 | LEFT and RIGHT go to the neighbouring cell, across the ends of rows, and stop at the corners; UP and DOWN keep the column and move the view at the edges |
| `CursorLaws.HandScrolls` | OS/OS/src/kernel/console.c:666-726 | scroll_up and scroll_down move all rows by one, blank the one that becomes free, save the one that leaves, and move the cursor along |
| `HistoryRing.RingAdd` | OS/OS/src/kernel/console.c:47-61 | storing a line at the write position makes the ring hold the last min(w, 1000) of the w saved lines |
| `HistoryRing.StartIndex` | OS/OS/src/kernel/console.c:108-112 | the index computation, negative C remainders included, finds the slot of the line that is asked for |
| `HistoryRing.ImageAssembled` | OS/OS/src/kernel/console.c:90-142 | rows, prompt and blanks make up exactly the specified view |
| `ConsoleC.Console.SaveLineToHistory` | OS/OS/src/kernel/console.c:47-61 | the row is added to the saved lines, and the ring keeps the last 1000 |
| `ConsoleC.Console.BackupCurrentScreen` | OS/OS/src/kernel/console.c:63-74 | the backup equals the screen |
| `ConsoleC.Console.RestoreScreenFromBackup` | OS/OS/src/kernel/console.c:76-88 | screen and current buffer take the backup, and nothing else changes |
| `ConsoleC.Console.ShowHistoryLines` | OS/OS/src/kernel/console.c:90-145 | the screen shows the specified view of the saved lines, for every offset in range |
| `ConsoleC.Console.ViewHistoryUp` | OS/OS/src/kernel/console.c:147-163 | the whole console becomes what the view transition prescribes |
| `ConsoleC.Console.ViewHistoryDown` | OS/OS/src/kernel/console.c:165-177 | the whole console becomes what the view transition prescribes |
| `ConsoleC.Console.SetVgaColor` | OS/OS/src/kernel/console.c:179-182 | colour and terminal colour are set |
| `ConsoleC.Console.VtRenderActive` | OS/OS/src/kernel/console.c:208-214 | the screen takes the buffer of the current terminal |
| `ConsoleC.Console.ShiftUp` | OS/OS/src/kernel/console.c:222-235 | the loops move every row up in place, in buffer and screen, and blank the last |
| `ConsoleC.Console.ShiftDown` | OS/OS/src/kernel/console.c:702-716 | the loops move every row down in place, in buffer and screen, and blank the first |
| `ConsoleC.Console.ScrollScreen` | OS/OS/src/kernel/console.c:216-241 | the whole console becomes what scrolling prescribes, from a cursor just below the screen |
| `ConsoleC.Console.ClearScreen` | OS/OS/src/kernel/console.c:243-262 | all rows are saved and the whole console becomes what clearing prescribes |
| `ConsoleC.Console.PrintCharColor` | OS/OS/src/kernel/console.c:268-312 | the whole console becomes what printing the character prescribes |
| `ConsoleC.Console.PrintStrColor` | OS/OS/src/kernel/console.c:318-322 | the characters are printed one after the other |
| `ConsoleC.Console.PrintUint64Color` | OS/OS/src/kernel/console.c:328-345 | prints the base-ten digits that number gives, from a buffer of 20 characters |
| `PrintedNumber.NumberLands` | OS/OS/src/kernel/console.c:328-345 | where it fits, the number stands from the cursor on as at most 20 decimal digits without leading zeros that read back to it, in the colour asked for, and no other cell changes |
| `ConsoleC.Console.VtSwitch` | OS/OS/src/kernel/console.c:347-364 | the whole console becomes what the switch prescribes; any other number changes nothing |
| `ConsoleC.Console.MoveCursorUp` | OS/OS/src/kernel/console.c:624-633 | cursor and view become what the transition prescribes |
| `ConsoleC.Console.MoveCursorDown` | OS/OS/src/kernel/console.c:635-644 | cursor and view become what the transition prescribes |
| `ConsoleC.Console.MoveCursorLeft` | OS/OS/src/kernel/console.c:646-654 | the cursor becomes what the transition prescribes |
| `ConsoleC.Console.MoveCursorRight` | OS/OS/src/kernel/console.c:656-664 | the cursor becomes what the transition prescribes |
| `ConsoleC.Console.ScrollUpByHand` | OS/OS/src/kernel/console.c:666-695 | the whole console becomes what the transition prescribes |
| `ConsoleC.Console.ScrollDownByHand` | OS/OS/src/kernel/console.c:697-726 | the whole console becomes what the transition prescribes |
| `CText.StrLen` | OS/OS/src/kernel/lib.h:96-103 | the length of the C string |
| `CText.StrCmp` | OS/OS/src/kernel/lib.h:105-111 | the difference of the first characters that differ; 0 exactly for equal strings |
| `CText.StrCopy` | OS/OS/src/kernel/lib.h:129-133 | the C string and its terminator are stored, and nothing else changes, also within one array if the regions do not overlap |
| `CText.CopiedString` | OS/OS/src/kernel/lib.h:129-133 | the destination then reads as the string copied |
| `Tokens.WordsAreRuns` | OS/OS/src/kernel/shell.c:192-213 | the words are exactly the maximal runs of characters other than blank and tab |
| `Tokens.Arguments` | OS/OS/src/kernel/shell.c:196-212 | each of the first fourteen arguments is a word; the fifteenth is all the rest of the line |
| `Tokens.CutExactly` | OS/OS/src/kernel/shell.c:196-212 | the characters replaced by NUL are exactly the first blank or tab after each word, as far as the line is read |
| `Tokens.FewWords` | OS/OS/src/kernel/shell.c:196-212 | a line of at most fourteen words is split into exactly its words |
| `Tokens.ManyWords` | OS/OS/src/kernel/shell.c:196-212 | a longer line gives fifteen arguments, the last of which is a word if and only if the line ends with it |
| `Tokens.JoinSplits` | OS/OS/src/kernel/shell.c:192-213 | words joined by single blanks are split into the same words |
| `Tokens.SplitAgain` | OS/OS/src/kernel/shell.c:192-213 | splitting any line, joining its words by single blanks and splitting again gives the same words |
| `ShellLaws.EditRefines` | OS/OS/src/kernel/shell.c:247-345 | each editing key does to the buffer what it does to the pair of the text before and the text after the cursor, and leaves the history alone |
| `ShellLaws.EditingRefines` | OS/OS/src/kernel/shell.c:247-345 | so does every sequence of editing keys; the line never exceeds 127 characters |
| `ShellLaws.BackspaceUndoesTyping` | OS/OS/src/kernel/shell.c:310-343 | a typed character is taken back by backspace |
| `ShellLaws.RightUndoesLeft` | OS/OS/src/kernel/shell.c:249-261 | RIGHT undoes LEFT, unless the cursor is at the start of the line |
| `ShellLaws.LeftUndoesRight` | OS/OS/src/kernel/shell.c:249-261 | LEFT undoes RIGHT, unless the cursor is at the end of the line |
| `ShellLaws.DeleteIsRightBackspace` | OS/OS/src/kernel/shell.c:283-323 | DEL is RIGHT and backspace |
| `ShellLaws.CursorReaches` | OS/OS/src/kernel/shell.c:256-281 | HOME and p times RIGHT put the cursor at p or at the end, and keep the text |
| `ShellLaws.HomeAndEnd` | OS/OS/src/kernel/shell.c:275-281 | HOME and END go to the ends of the line and keep its text |
| `ShellLaws.PrintableKeys` | OS/OS/src/kernel/shell.c:325-343 | every printable ASCII character is inserted before the cursor as long as the line has fewer than 127 |
| `ShellLaws.OtherKeys` | OS/OS/src/kernel/shell.c:244-346 | any other character changes nothing, and so does every key in a shell that is not active |
| `ShellLaws.EnterEmpties` | OS/OS/src/kernel/shell.c:296-308 | ENTER leaves an empty line and the shell active; on an empty line it does nothing |
| `ShellLaws.NoHistory` | OS/OS/src/kernel/shell.c:263-273 | UP and DOWN do nothing as long as no line has been entered |
| `ShellLaws.TypingInserts` | OS/OS/src/kernel/shell.c:325-343 | typed text is inserted at the cursor as far as there is room |
| `ShellSpec.TextIsString` | OS/OS/src/kernel/shell.c:333-335 | a line that is not empty is the C string in the buffer |
| `ShellSpec.ShownString` | OS/OS/src/kernel/shell.c:126-150 | after an entry is shown the buffer holds exactly it as a C string, and what lies behind is as before |
| `ShellSpec.RemovedString` | OS/OS/src/kernel/shell.c:283-318 | after a character is removed the C string in the buffer is the line, also if it is empty |
| `ShellLaws.DedupedSnoc` | OS/OS/src/kernel/shell.c:76-80 | comparing with the last entry drops exactly consecutive duplicates |
| `ShellLaws.HistoryIs` | OS/OS/src/kernel/shell.c:71-91 | after any keys the history is the last 50 of the lines entered, consecutive duplicates removed |
| `ShellLaws.UpsShow` | OS/OS/src/kernel/shell.c:96-124 | k times the key UP from the line being typed shows entry min(k, n) - 1 counted from the oldest, and the C string in the buffer is kept aside |
| `ShellLaws.DownsShow` | OS/OS/src/kernel/shell.c:107-124 | m times the key DOWN leads m entries back, and from the first one to the text kept aside |
| `ShellLaws.UpsDownsRestore` | OS/OS/src/kernel/shell.c:93-150 | the key UP k times and then DOWN at least min(k, n) times bring the line back with the cursor at its end if and only if the line is not empty or the buffer starts with a NUL |
| `ShellLaws.EmptyLineNotRestored` | OS/OS/src/kernel/shell.c:297-303 | the excluded case is reached: after entering "x", UP and DOWN on the empty line show "x" |
| `ShellLaws.EnterKeepsPlace` | OS/OS/src/kernel/shell.c:297-303 | ENTER does not leave the history: the next UP goes on from the entry shown and keeps the old text aside |
| `ShellLaws.EnteredArguments` | OS/OS/src/kernel/shell.c:215-225 | the strings a command receives for an entered line are its words, up to fourteen |
| `ShellC.Shell.constructor` | OS/OS/src/kernel/shell.c:348-367 | after shell_init: active, an empty line, no history |
| `ShellC.Shell.HistoryAdd` | OS/OS/src/kernel/shell.c:71-91 | the rows read as the specified history: empty and repeated lines dropped, the oldest of 50 shifted out |
| `ShellC.Shell.DropOldest` | OS/OS/src/kernel/shell.c:83-86 | the shifting loop over the rows drops exactly the oldest entry |
| `ShellC.Shell.HistoryShowUp` | OS/OS/src/kernel/shell.c:93-150 | the shell becomes what the transition prescribes |
| `ShellC.Shell.HistoryShowDown` | OS/OS/src/kernel/shell.c:93-150 | the shell becomes what the transition prescribes |
| `ShellC.Shell.MoveCursorTo` | OS/OS/src/kernel/shell.c:152-169 | the position is clamped to the line, and the displayed cursor moves by the difference |
| `ShellC.Shell.ParseArguments` | OS/OS/src/kernel/shell.c:192-213 | argv holds the starts of the words, at most fifteen, then NULL, within its 16 entries; the buffer has a NUL behind each word that was closed |
| `ShellC.Shell.ExecuteCommand` | OS/OS/src/kernel/shell.c:215-225 | the line enters the history and is split; nothing else changes |
| `ShellC.Shell.EnterLine` | OS/OS/src/kernel/shell.c:296-308 | the shell becomes what ENTER prescribes, with the stale text left in the buffer |
| `ShellC.Shell.InsertChar` | OS/OS/src/kernel/shell.c:325-336 | the shifting loop stays in bounds and inserts the character at the cursor |
| `ShellC.Shell.DeleteAt` | OS/OS/src/kernel/shell.c:283-318 | the shifting loop stays in bounds and removes one character |
| `ShellC.Shell.ShellProcessInput` | OS/OS/src/kernel/shell.c:244-346 | for every character the shell becomes what the key prescribes |

## Left out

- Hardware: port input and output (so also `update_cursor`), interrupt setup and handlers, keyboard polling, and all
  assembly; `context_switch_asm` is a step that stores the given context into the old process and resumes the new one.
- Interrupt interleavings: one thread runs, and `scheduler_tick` does nothing.
- `process_wrapper` is what it calls (`SchedSteps.WrapperCall`); the idle process is an address only.
- `init_memory_map`: the map of at most 32 entries is a parameter of `InitPage`.
- Word-sized stores: memory is an array of 64-bit words, `is_free` is the low half of the third word of a header, and a
  client's stores are given word by word.
- MemoryC.Memory.InitMemory: requires consecutive frames, because the property is false for others; the iff is
  `HeapGaps.SafeIffContiguous`. For the same reason it requires the descriptors below the frames of their region; the
  iff is `PageMap.DescriptorsClear`, and a map that fails is `PageMap.DescriptorsOverlap`.
- HeapRuns.Conservation: the totals of the specification are exact; those of the code are these totals modulo 2^64, which
  `Memory.Valid` says.
- SchedRuns.RunEvents: the pids are stated to be distinct for as long as fewer than 2^64 - 1 processes have been created.
- FormatterC.Number: width, precision and counters are unbounded integers, not 32-bit ones; `FormatterC.WidthInRange`
  says exactly when the width counter stays in range.
- FormatterC.SkipAtoi: the value is an unbounded integer, not a 32-bit one; `FormatterC.AtoiInRange` says exactly when no
  value on the way leaves the range.
- ConsoleC.Console.PrintCharColor: at the corner of the last terminal the glyph goes to a spare cell, not to the variable
  that the compiler has placed behind `tty_buf`.
- `vprintk` and its arguments, `fmt_buf` and its size, and `print_char`, `print_str` and the other short forms.
- `set_cursor_row`, `set_cursor_col` and the getters of the console: plain fields.
- ConsoleC.Console.PrintStrColor: takes the characters of the string, without its terminator.
- The shell's redrawing and the placement of the displayed cursor: `MoveCursorTo` only gives the number of columns.
- The commands of the shell and the look-up of their names: they print.
- `history_saved_current` and `saved_cmd_pos` of `shell.c`: never read.
- `fs/`, the boot stubs, the other kernels and the notebooks of the repository.
