# Models of the kernel's hard parts

A small 32-bit x86 kernel carries a ported C++ runtime. This project models the parts of it whose
correctness is not visible in any one function, and proves what they promise. Each `.dfy` file is one
module, named after what it models:

| file | what it models |
|---|---|
| FrameAllocator | the bitmap of free physical frames |
| Paging, PagingProofs, PageTables, FrameOwnership | page tables edited through the recursive directory slot, against the MMU walk of 32-bit paging (section 4.3 of the Intel SDM, volume 3A), and which frame serves what over whole runs |
| Heap, HeapMemory | the block-list heap in pages mapped and zeroed on demand, and why its bytes are bytes of physical memory seen through the page tables |
| Guard | the one-time construction guard (section 3.3 of the Itanium C++ ABI) under any number of threads |
| ControlStack, Exceptions, CxaRuntime | the lifetime of exceptions: signed handler counts, caught lists, reference counts, dependent exceptions (section 2.5 of the Itanium C++ ABI: Exception Handling) |
| EmergencyPool | the sixteen emergency buffers under a lock and a condition variable |
| ContextSwitch, Scheduler | the context switch, instruction by instruction, the thread ring and round-robin scheduling |
| Casts | upcasts over the class hierarchy (section 2.9.5 of the Itanium C++ ABI) |
| Leb128, CallSites | LEB128 numbers (section 7.6 of DWARF 4) and the early-exit search of a call-site table |
| Numbers | `strtol` with saturation, and `itoa`, which it inverts |
| Strtok | the stateful in-place tokenizer |
| RingBuffer | the keyboard's one-reader one-writer ring |

What the source updates in place is a class or an array here, and each method is proved against a function
or predicate on values; the lemmas then say what those mean over every call, run or interleaving. Threads
are state machines: one program counter per thread, one step per access to shared state, any schedule.
Machine words are integers with the wrap-around, truncation and 32-bit shifts written out.

## Where the code does not do what it suggests

These are facts of the code, kept in the model, each with the exact condition or a concrete instance proved:

- The bitmap constructor never clears the bitmap. A frame is free afterwards exactly when it lies above the
  kernel's last page and was either free in the stale bitmap or ends inside an available region; it lies
  wholly in the region unless the region starts inside it (`WhollyInside`). Frame 0 is never
  free, which is why a NULL from `AllocatePage` means exhaustion (`BitmapAllocator.constructor`,
  `NullMeansExhausted`).
- `MapPage` leaves an already mapped page alone exactly when its directory entry is an ordinary table or the
  large page, read as a table, shows a present word (`MappedUnchangedIff`). It keeps every other page exactly
  when the table is there, or a frame is left for it, or what frame 0 already shows as a table is what the
  call leaves there (`OthersKeptIff`); otherwise two tables collide in frame 0 (`ExhaustedTablesCollide`). A
  call for an unmapped page of the table window makes a page table of the frame it enters, contents included,
  which is harmless exactly when the frame holds no present word and bit 7 of the address is clear
  (`WindowCallInstallsTable`, `WindowCallHarmlessIff`).
- `__cxa_rethrow` asserts that the handler count is positive. That holds exactly when the innermost caught
  exception is not in flight already (`RethrowAssertionIff`); a cleanup that rethrows while that very
  exception is being unwound fails the assertion (`CleanupRethrowStops`).
- LEB128 digits are shifted as 32-bit `int`s, so the unsigned reader inverts the standard's encoding exactly
  below 2^31, and the signed reader exactly for the numbers of an `int` (`UnsignedRoundTrip`,
  `SignedRoundTrip`).
- The call-site loop tests `<=`, so past the last entry it reads the action table as one more entry; what it
  answers for an ip no entry covers is stated exactly (`SearchIsLookup`), and so is when it agrees with the
  table (`AnswersAsMeantIff`); in `ReadsPastTheTable` an empty table "covers" an address.
- In `strtol` the upper-case letters end a number, because the macro that recognises them is not
  parenthesised, and after a `0x` with no digit behind it the end pointer is the start of the text, where
  ISO C11 (section 7.22.1.4) leaves it behind the 0. It is the standard's function exactly when neither
  happens (`IsoExactly`; `NotIso` gives a text of each kind).
- `itoa` prints a sign for radix 10 only, so the round trip through `strtol` holds exactly for radix 10 or a
  value that is not negative (`PrintThenParse`). Sixteen scratch digits are enough exactly while the printed
  number is below the sixteenth power of the radix, which from radix 4 on is always (`DigitCount`,
  `SixteenSuffice`).
- `strtok` returns one empty token first when the string is empty or starts with a delimiter
  (`TokensAreRuns`).
- A thread's count of emergency buffers never goes down, so four is a limit for its whole life; what is
  proved is that it bounds the buffers the thread allocated and nobody freed.
- A lone thread has no `prev`, and `Scheduler::next` goes through it: it can switch exactly when there are two
  threads (`PrevOfNext`).
- Upcasts do not look at the public flag, nor at ambiguity: the first path a depth-first search meets is taken.
  They obey the ABI's rule exactly for targets that are no base at all, or a public and unambiguous one
  (`UpcastIsAllowedIff`; `PrivateBaseFound` and `AmbiguousBaseFound` are instances of the rest).

## Model

| member | source | states |
|---|---|---|
| FrameAllocator.BitmapAllocator.constructor | kernel/memory/manager.cpp:60-86 | a frame is free afterwards iff it has a bit, starts above the kernel's last byte, and was set in the stale bitmap or its last byte lies in an available region |
| FrameAllocator.EndsInFrames | kernel/memory/manager.cpp:72-75 | in bytes, the frames freed for a region are those whose last byte lies in it, its end wrapping at 2^32 |
| FrameAllocator.WhollyInside | kernel/memory/manager.cpp:72-75 | such a frame lies wholly in the region unless the region starts inside it |
| FrameAllocator.BitmapAllocator.PageFree | kernel/memory/manager.cpp:21-24 | the free frames gain exactly this one |
| FrameAllocator.BitmapAllocator.PageTaken | kernel/memory/manager.cpp:30-33 | the free frames lose exactly this one |
| FrameAllocator.BitmapAllocator.AllocatePage | kernel/memory/manager.cpp:40-57 | the lowest free frame is returned and only it is taken; NULL and an unchanged bitmap when none is free |
| FrameAllocator.WithBitSets | kernel/memory/manager.cpp:22 | setting a bit of a word sets that bit and no other |
| FrameAllocator.WithoutBitClears | kernel/memory/manager.cpp:31 | clearing a bit of a word clears that bit and no other |
| FrameAllocator.BitMeans | kernel/memory/manager.cpp:22-31 | bit i counts 2^i, and is set or cleared by adding or taking that |
| FrameAllocator.TakenInOrder | kernel/memory/manager.cpp:40-57 | a frame taken by a call is never left to a later one, and all left are higher |
| FrameAllocator.NullMeansExhausted | kernel/memory/manager.cpp:40-85 | in any number of calls after the constructor, call n returns NULL iff the n frames before it were all there were; else a frame free at first, higher than all before |
| Paging.EntryBits | kernel/memory/manager.cpp:134-138 | the flags set in an entry make it present and leave its frame and its size bit as the address has them |
| Paging.EntryFlags | kernel/memory/manager.cpp:134-138 | bit by bit: present, read/write and user are set in every entry, cache disable in a table's, the rest is the address's |
| Paging.WindowReachesTable | kernel/memory/manager.cpp:96-117 | with slot 1023 naming the directory, the MMU walk of a window address ends in the table the directory entry names, at the intended word, and faults iff the entry is absent |
| PageTables.PageTableManager.constructor | kernel/memory/manager.cpp:96-105 | memory changes in slot 1023 of the directory only, which then names the directory |
| PageTables.PageTableManager.GetFromVirtualAddress | kernel/memory/manager.cpp:110-117 | the table pointer addresses the window page of that index |
| PageTables.PageTableManager.MapPage | kernel/memory/manager.cpp:125-163 | every store through the window lands where intended: memory, directory and free frames change as `Paging.Map` says and the manager stays valid |
| PageTables.PageTableManager.InstallTable | kernel/memory/manager.cpp:130-147 | an absent entry gets the lowest free frame, zeroed, as its table |
| PageTables.PageTableManager.ZeroTable | kernel/memory/manager.cpp:142-146 | the 1024 stores through the window zero exactly the table's frame |
| PageTables.PageTableManager.EnterPage | kernel/memory/manager.cpp:149-162 | an absent table word gets the caller's address or a new frame, a present one is left |
| PagingProofs.AddTableKeepsPages | kernel/memory/manager.cpp:130-147 | installing a table keeps every translation outside the window and keeps the tables apart |
| PagingProofs.SetTableWord | kernel/memory/manager.cpp:161 | changing one word of a table changes the translation of exactly that page |
| PagingProofs.AddPageMaps | kernel/memory/manager.cpp:149-162 | entering a page makes it translate to its target and moves no other page |
| PagingProofs.MapPageTranslates | kernel/memory/manager.cpp:125-163 | for an ordinary entry with a frame available: an unmapped page then translates to the caller's address or the lowest frame left, a mapped one changes nothing, every other page outside the window translates as before, slot 1023 still names the directory |
| PagingProofs.MappedUnchangedIff | kernel/memory/manager.cpp:129-162 | exactly when a call for a mapped page changes nothing |
| PagingProofs.OthersKeptIff | kernel/memory/manager.cpp:125-163 | for an ordinary entry, with or without a frame left: every other page outside the window keeps its translation iff the table is there, or a frame is free, or any table already in frame 0 shows nothing but the call's own target at the page's index |
| PagingProofs.ExhaustedTablesCollide | kernel/memory/manager.cpp:56-146 | with nothing free, a second missing table unmaps the first one's page |
| PagingProofs.WindowCallInstallsTable | kernel/memory/manager.cpp:151-161 | a call inside the window turns the frame it enters, contents included, into the translations of a whole directory entry |
| PagingProofs.WindowCallHarmlessIff | kernel/memory/manager.cpp:151-161 | such a call keeps all pages outside the window iff that frame holds no present word and the address has bit 7 clear |
| FrameOwnership.AddTableUses | kernel/memory/manager.cpp:130-147 | a new table's frame serves nothing else, and every other frame serves what it did |
| FrameOwnership.AddPageUses | kernel/memory/manager.cpp:152-162 | the same for a new page |
| FrameOwnership.ServedIff | kernel/memory/manager.cpp:125-163 | the frames a call takes are there iff it makes neither a table nor a page of frame 0; two free frames serve any call |
| FrameOwnership.CallUses | kernel/memory/manager.cpp:125-163 | a call for which the frames it takes are there keeps frames private and maps its page |
| FrameOwnership.CallKeepsContents | kernel/memory/manager.cpp:125-163 | such a call changes no word of a page that has a frame of its own, and does not move it |
| FrameOwnership.StoreKeepsPrivate | kernel/memory/manager.cpp:125-163 | a store that hits neither the directory nor a frame serving something else moves no page and keeps frames private |
| FrameOwnership.StoreIsPrivate | kernel/memory/manager.cpp:125-163 | such a store is seen at its address, and at no other address of a page with a frame of its own |
| FrameOwnership.RunKeepsFramesPrivate | kernel/memory/manager.cpp:20-163 | along any run of calls and stores while frames remain, down to the last: every table and allocated page has a frame of its own above the kernel image, every call's page is mapped at the end, no mapped page has moved, slot 1023 still names the directory |
| FrameOwnership.RunKeepsCells | kernel/memory/manager.cpp:20-163 | along any such run each word of a page with a frame of its own is what was last stored through its address, or what it was |
| FrameOwnership.BootIsPrivate | kernel/asm/boot.s:46-92 | the boot directory with slot 1023 added is a state every run may start from, with every entry ordinary but the kernel's and the window's |
| HeapMemory.SomethingShows | kernel/memory/heap.cpp:10-16 | in every state there are bytes the heap sees |
| HeapMemory.WordShows | kernel/memory/heap.cpp:39-50 | a word the heap reads is the word of physical memory its address names |
| HeapMemory.MapPageShows | kernel/memory/heap.cpp:12 | seen through the page tables, mapping a heap page adds exactly that page's bytes and changes none seen before: the contract of the heap's `MapPage` |
| HeapMemory.StoreShows | kernel/memory/heap.cpp:14 | seen through the page tables, storing a byte changes that byte and no other |
| Heap.KernelHeap.constructor | kernel/memory/heap.cpp:5-6 | the heap starts valid and empty |
| Heap.KernelHeap.MapHeapPages | kernel/memory/heap.cpp:10-16 | whole pages from the old top up to the needed address, and not a page more, are mapped and zero, nothing else changes |
| Heap.KernelHeap.InitHeap | kernel/memory/heap.cpp:29-36 | the first page is mapped and zero, the top is still the start |
| Heap.KernelHeap.FindLast | kernel/memory/heap.cpp:38-46 | the walk ends, at the last block, though a lone block names itself as its successor |
| Heap.KernelHeap.BlockSize | include/kernel/memory/heap.hpp:11-18 | the 31-bit size field of the block found leads to the heap's end |
| Heap.KernelHeap.LinkBlock | kernel/memory/heap.cpp:55-59 | the block list is extended by the new block, every header stays right, and only the new header and the predecessor's link are written |
| Heap.KernelHeap.AppendBlock | kernel/memory/heap.cpp:50-59 | pages and link together: memory past the header is zero up to the top, earlier blocks keep their bytes |
| Heap.KernelHeap.Vmalloc | kernel/memory/heap.cpp:19-65 | a new block right after the last, 12 bytes longer than asked for; its region, behind those 12, is mapped, zero and below the top; no byte of an earlier block changes but the last one's link; size 0 gives NULL and changes nothing |
| Heap.KernelHeap.StoreInBlock | kernel/memory/heap.cpp:63-64 | whatever is stored in a returned region, the heap stays valid |
| Heap.KernelHeap.VmallocAll | kernel/memory/heap.cpp:19-65 | any run of calls hands out blocks of the requested sizes in order, all still zero at the end |
| Heap.TiledInOrder | kernel/memory/heap.cpp:50-55 | blocks that follow one another directly lie in order, apart from each other |
| Heap.HeaderBytes | include/kernel/memory/heap.hpp:11-18 | the twelve bytes of a header: in-use bit and 31-bit size, next, previous, each little-endian |
| Heap.NewHeader | include/kernel/memory/heap.hpp:18-22 | after the stores the new header holds its size and predecessor; the first block becomes its own successor |
| Heap.HeaderKept | kernel/memory/heap.cpp:55-59 | every earlier header is as the longer list demands |
| Heap.LinkExtendsList | kernel/memory/heap.cpp:55-59 | the stores extend a right list to a right list |
| Heap.AfterLink | kernel/memory/heap.cpp:51-59 | on-demand zeroing and linking leave earlier blocks alone but for one link |
| Heap.PayloadKept | kernel/memory/heap.cpp:19-65 | an allocation keeps the payload of every earlier block |
| Heap.RegionsDisjoint | kernel/memory/heap.cpp:19-65 | the regions of a run are pairwise disjoint, overlap no header and lie below the heap's end |
| Guard.NextIsLocal | libcxxrt/guard.cpp:118-193 | a step moves its own thread; the two words change only through the lock's holder or by taking a free lock |
| Guard.NextKeepsInv | libcxxrt/guard.cpp:118-193 | one lock holder, words agreeing with every program counter, on every step; the init word never reverts |
| Guard.RunKeepsInv | libcxxrt/guard.cpp:118-193 | the same along every schedule |
| Guard.Safety | libcxxrt/guard.cpp:118-193 | for any schedule at most one thread is between acquire-returned-1 and the end of its release or abort, and no assertion fails |
| Guard.ExactlyOnce | libcxxrt/guard.cpp:118-193 | at most one release succeeds, the init word is set iff one has and stays set, acquire returned 0 only after it; that a release succeeds is `ReleaseSets` |
| Guard.GrantOnlyBeforeRelease | libcxxrt/guard.cpp:135-141 | construction is granted only while no release has succeeded |
| Guard.FreeLockAnswers | libcxxrt/guard.cpp:118-163 | with the lock free, a thread anywhere in acquire returns within five steps of its own: 1 iff no release has succeeded |
| Guard.AcquireAnswers | libcxxrt/guard.cpp:118-163 | an acquire called while the lock is free returns in its own steps: 1 with the lock held iff no release has succeeded, else 0 |
| Guard.ReleaseSets | libcxxrt/guard.cpp:180-193 | a release by the thread that constructs sets the init word, frees the lock and counts as the one release |
| Guard.AcquireOnceSet | libcxxrt/guard.cpp:125-126 | an acquire called once the guard is set returns 0 at its first look, whoever holds the lock |
| Guard.AbortResets | libcxxrt/guard.cpp:169-175 | an abort by the thread that constructs leaves both words as at first and moves no other thread |
| Guard.AbortIsRetryable | libcxxrt/guard.cpp:118-175 | after an abort a thread waiting in acquire, or one that calls it later, is granted construction |
| Guard.ReleaseWindow | libcxxrt/guard.cpp:188-192 | between setting the init word and clearing the lock nobody else holds the lock and an acquire that looks returns 0 |
| ControlStack.CaughtAreHandled | libcxxrt/exception.cc:1217-1224 | an exception is caught iff it has an active handler |
| ControlStack.CaughtNoDuplicates | libcxxrt/exception.cc:1217-1224 | nested use never catches an exception into the list twice |
| ControlStack.CatchKeepsNesting | libcxxrt/exception.cc:1217-1251 | what catching does to nesting, depth, flight and the caught order |
| ControlStack.EndKeepsNesting | libcxxrt/exception.cc:1304-1337 | what leaving the innermost handler does to them, also when an exception unwinds through it |
| ControlStack.FlightKeepsNesting | libcxxrt/exception.cc:771-786 | taking flight keeps nesting, depths and the caught order |
| Exceptions.LiveIsAllocated | libcxxrt/exception.cc:627-652 | an exception is allocated iff it has a reason to live |
| Exceptions.ThrowRefines | libcxxrt/exception.cc:771-786 | a throw's fields agree with the thrower's control stack |
| Exceptions.CatchRefines | libcxxrt/exception.cc:1217-1251 | the updated count and list agree with the control stack after the catch |
| Exceptions.RethrowAssertionIff | libcxxrt/exception.cc:846-863 | the caught list is empty iff nothing is caught, and otherwise the assertion holds iff the innermost caught exception is not in flight already |
| Exceptions.RethrowRefines | libcxxrt/exception.cc:863-871 | where the assertion holds, the negated count agrees with the exception in flight |
| Exceptions.EndKeeps | libcxxrt/exception.cc:1304-1332 | leaving a handler without release: counts, lists and references stay right |
| Exceptions.EndReleases | libcxxrt/exception.cc:1330-1336 | leaving the last handler of an exception not rethrown: it may be released, and afterwards all is right |
| Exceptions.PrimaryReleased | libcxxrt/exception.cc:634-640 | a release takes one reason away and frees exactly when that was the last |
| Exceptions.DependentReleased | libcxxrt/exception.cc:643-652 | a dependent's release frees it and takes one reason from its primary |
| Exceptions.HolderRefines | libcxxrt/exception.cc:816-822 | one more `exception_ptr` is one more reference |
| Exceptions.HolderReleases | libcxxrt/exception.cc:823-828 | one fewer `exception_ptr` is one reference less, and a free iff it was the last reason |
| Exceptions.DependentRefines | libcxxrt/exception.cc:788-803 | a dependent exception takes flight and shares its primary |
| CxaRuntime.Runtime.constructor | libcxxrt/exception.cc:771-786 | the empty state refines the empty program |
| CxaRuntime.Runtime.ThrowNew | libcxxrt/exception.cc:771-786 | the runtime's state after a throw is right for the control stacks after it |
| CxaRuntime.Runtime.BeginCatchOf | libcxxrt/exception.cc:1201-1255 | the same for `__cxa_begin_catch` |
| CxaRuntime.Runtime.RethrowCaught | libcxxrt/exception.cc:837-879 | the same for `__cxa_rethrow`, which terminates iff nothing is caught, fails its assertion iff the exception is in flight already, and then has changed nothing |
| CxaRuntime.Runtime.EndInnermost | libcxxrt/exception.cc:1279-1338 | the same for `__cxa_end_catch`; there is an exception to end, and none is read after it was freed |
| CxaRuntime.Runtime.ReleaseException | libcxxrt/exception.cc:627-641 | one reference less, freed at zero; a dependent goes with one reference of its primary |
| CxaRuntime.Runtime.FreeDependentException | libcxxrt/exception.cc:643-652 | the dependent is freed and its primary released once |
| CxaRuntime.Runtime.CurrentPrimaryException | libcxxrt/exception.cc:805-814 | the primary of the innermost caught exception gains a holder; NULL iff nothing is caught |
| CxaRuntime.Runtime.IncrementRefcount | libcxxrt/exception.cc:816-822 | a holder more; nothing for NULL |
| CxaRuntime.Runtime.DecrementRefcount | libcxxrt/exception.cc:823-828 | a holder fewer; nothing for NULL |
| CxaRuntime.Runtime.RethrowPrimaryException | libcxxrt/exception.cc:788-803 | a dependent takes flight and the primary gains a reference; nothing for NULL |
| CxaRuntime.Runtime.Perform | libcxxrt/exception.cc:627-1338 | every event a program may perform keeps list, counts and references right, and stops the program iff it is a rethrow of nothing or of an exception in flight |
| CxaRuntime.Runtime.PerformAll | libcxxrt/exception.cc:627-1338 | so does every run of such events over any number of threads, up to such a rethrow: each exception is allocated exactly while in flight, caught, held or shared, and its count is the number of those reasons |
| CxaRuntime.CleanupRethrowStops | libcxxrt/exception.cc:863 | throw, catch, rethrow, and a rethrow from a cleanup: the assertion fails |
| CxaRuntime.BareRethrowTerminates | libcxxrt/exception.cc:848-852 | a rethrow with nothing caught terminates the program |
| CxaRuntime.WholeLife | libcxxrt/exception.cc:771-1338 | an exception thrown, caught, held beyond its handler, thrown again through a dependent one, caught, copied and let go: every step is allowed, and it lives until the last holder goes |
| CxaRuntime.CaughtListIsExact | libcxxrt/exception.cc:1213-1255 | a thread's list is acyclic and duplicate-free and holds exactly the exceptions with nonzero handler count |
| CxaRuntime.RethrownSurvives | libcxxrt/exception.cc:1304-1333 | a rethrown exception leaves the list alive and can be caught again |
| CxaRuntime.OnlyAllocationRevives | libcxxrt/exception.cc:771-803 | no event but an allocation brings an exception to life: it is freed at most once in each life |
| EmergencyPool.ScanFinds | libcxxrt/exception.cc:486-494 | the scan finds the lowest unmarked buffer |
| EmergencyPool.SlotFinds | libcxxrt/exception.cc:520-527 | the slot search finds the buffer a pointer starts, if any |
| EmergencyPool.AdvanceIsLocal | libcxxrt/exception.cc:464-543 | a step inside the functions changes only what its thread answers for |
| EmergencyPool.LocalStepKeepsInv | libcxxrt/exception.cc:464-543 | such steps keep every other thread's buffers right |
| EmergencyPool.GiveKeepsInv | libcxxrt/exception.cc:564-577 | buffers may change hands between threads |
| EmergencyPool.NextKeepsInv | libcxxrt/exception.cc:464-577 | every step of any thread keeps the invariant |
| EmergencyPool.NextKeepsLimit | libcxxrt/exception.cc:470-504 | no step takes a thread's unfreed buffers above its count plus the one under way; counts never fall |
| EmergencyPool.RunKeepsInv | libcxxrt/exception.cc:464-577 | both hold along every run |
| EmergencyPool.RunKeepsSizes | libcxxrt/exception.cc:466 | on every run whoever is past the size test asked for at most 1024 bytes |
| EmergencyPool.RunGoesOn | libcxxrt/exception.cc:464-577 | any thread may take any step at any time, with calloc held only to NULL or memory outside the pool |
| EmergencyPool.PoolSafety | libcxxrt/exception.cc:464-577 | on every run no buffer has two owners, an owned one is marked, an unmarked one is all zero, the slot assertion holds, no thread has more than four unfreed buffers it allocated, and whoever waits for a buffer asked for at most 1024 bytes |
| EmergencyPool.HandedOverZero | libcxxrt/exception.cc:503-505 | a buffer is all zero when handed out |
| EmergencyPool.HeapAnswers | libcxxrt/exception.cc:547-562 | memory from calloc is the caller's, and the pool is not touched |
| EmergencyPool.TooMuchTerminates | libcxxrt/exception.cc:466-470 | refused by calloc, a request above 1024 bytes, or by a thread that has had its four, ends the program at the next step |
| EmergencyPool.AllocationAnswers | libcxxrt/exception.cc:464-506 | refused by calloc, any other request, with the lock free and a buffer unmarked, gets the lowest unmarked buffer in its own steps |
| EmergencyPool.WaiterAnswers | libcxxrt/exception.cc:474-506 | so does a thread that waited, once woken |
| EmergencyPool.AllMarkedWaits | libcxxrt/exception.cc:498-501 | with every buffer marked the thread sleeps and leaves the lock free |
| EmergencyPool.RetryTakesMemory | libcxxrt/exception.cc:480-485 | memory calloc has by the time the lock is held is taken instead of a buffer |
| EmergencyPool.SlotAssertion | libcxxrt/exception.cc:520-529 | the slot assertion would fail exactly for a pointer that starts no buffer |
| EmergencyPool.RequestsAreSeen | libcxxrt/exception.cc:503-505 | what a holder writes is in its buffer, and a buffer given away is its new holder's |
| EmergencyPool.FreeAnswers | libcxxrt/exception.cc:516-577 | freeing a buffer zeroes and unmarks it and frees the lock; freeing any other pointer leaves the pool alone |
| EmergencyPool.FreeFindsAllocator | libcxxrt/exception.cc:564-577 | a held pointer into the pool starts a marked buffer and goes to its slot; any other pointer starts no buffer |
| ContextSwitch.Cpu.SwitchContext | kernel/asm/switch.s:22-44 | the instructions together suspend the caller and resume the stack in the second argument's cell |
| ContextSwitch.Cpu.SetContext | kernel/asm/switch.s:5-19 | the instructions together resume the stack in the argument's cell |
| ContextSwitch.SuspendParks | kernel/asm/switch.s:23-32 | the caller is parked with its registers, stack pointer and return address; memory that is not its own is untouched |
| ContextSwitch.ResumeRestores | kernel/asm/switch.s:34-44 | resuming a parked thread gives back exactly its context |
| ContextSwitch.SwitchRestores | kernel/asm/switch.s:22-44 | a switch resumes the next thread with its recorded context and keeps all others parked |
| ContextSwitch.RunKeepsValid | kernel/asm/switch.s:22-44 | on every run of slices and switches all threads but the running one are parked |
| ContextSwitch.ContextPreserved | kernel/asm/switch.s:22-44 | on every run a resumed thread gets exactly the ebp, ebx, esi, edi, stack pointer and return address it was switched out with |
| ContextSwitch.FirstResumed | kernel/asm/switch.s:22-44 | a thread not switched out before gets the context it had when the run began |
| Scheduler.Threads.SeedStack | kernel/proc/thread.cpp:36-57 | the new 4 KiB stack is parked with four zeroes and, at its top, the entry point; only the thread's own memory is written |
| Scheduler.Threads.Insert | kernel/proc/thread.cpp:61-75 | the walk ends, and the ring is again one cycle, in creation order, with `next` and `prev` inverse |
| Scheduler.Threads.StartThread | kernel/proc/thread.cpp:31-78 | a parked thread joins the end of the ring, all others stay parked with what they had |
| Scheduler.Threads.InitKthreads | kernel/proc/thread.cpp:80-89 | four parked threads with their entry points in the ring, the first of them the one to run |
| Scheduler.Threads.Next | kernel/proc/scheduler.cpp:23-42 | registers, memory, the parked contexts and the running thread change as one tick of the scheduler on values, and the ring is unchanged |
| Scheduler.Threads.RunSlice | kernel/proc/scheduler.cpp:23-42 | between two calls the running thread may do anything but touch the other threads' memory, and all stays valid |
| Scheduler.Threads.RunAll | kernel/proc/scheduler.cpp:23-42 | any sequence of slices and calls goes through the states of the scheduler on values |
| Scheduler.Threads.PrevOfNext | kernel/proc/scheduler.cpp:33-36 | going to the next thread and back finds no thread iff the ring has only one |
| Scheduler.TickIsPossible | kernel/proc/scheduler.cpp:23-42 | what a tick needs: two threads and 28 bytes of stack, or at first a stack below all the threads' memory; a slice may always leave memory alone |
| Scheduler.SeedingKeeps | kernel/proc/thread.cpp:36-57 | seeding a stack unparks nobody |
| Scheduler.SwitchResult | kernel/proc/scheduler.cpp:28-36 | the state save and the switch together, among any number of threads |
| Scheduler.FirstResult | kernel/proc/scheduler.cpp:38-41 | the first dispatch, among any number of threads |
| Scheduler.AfterSound | kernel/proc/scheduler.cpp:23-42 | a slice or tick leaves all threads but the running one parked, and a tick gives the next thread, or at first the root, the context it was parked with |
| Scheduler.StatesAreRun | kernel/proc/scheduler.cpp:23-42 | the states a sequence of events goes through form a run |
| Scheduler.ParkedSince | kernel/asm/switch.s:22-44 | what a thread is parked with stays until it is switched out again |
| Scheduler.DispatchRestores | kernel/proc/scheduler.cpp:23-42 | on any run the thread a tick dispatches gets exactly what it was last switched out with, or, never switched out, what it was seeded with |
| Scheduler.TicksGoRound | kernel/proc/scheduler.cpp:33-40 | on any run the ticks dispatch the threads round the ring, the first one the root |
| Scheduler.RoundRunsEachOnce | kernel/proc/scheduler.cpp:33-40 | on any run among n threads any n consecutive ticks, whatever slices lie between them, dispatch each thread exactly once and end where they began |
| Casts.FirstPathLeads | libcxxrt/dynamic_cast.cpp:110-184 | the search's path leads to the target |
| Casts.FirstPathIsFirst | libcxxrt/dynamic_cast.cpp:149-182 | every path to the target is found or comes after the one found |
| Casts.OrderIsStrict | libcxxrt/dynamic_cast.cpp:149-182 | of two different paths only one comes first |
| Casts.UpcastIffReachable | libcxxrt/dynamic_cast.cpp:110-184 | an upcast succeeds iff the target is reachable, along the first path |
| Casts.UniqueAddressIsResult | libcxxrt/dynamic_cast.cpp:146-184 | when the target has one address in the object, that is the result whatever path was taken |
| Casts.DirectBaseAt | libcxxrt/dynamic_cast.cpp:156-170 | a direct base: with flag bit 0 clear at the object's address plus the signed high part of the flags word, with it set at the object's address plus the word the object's virtual table holds at that high part |
| Casts.VirtualBaseFound | libcxxrt/dynamic_cast.cpp:166-170 | a virtual base whose offset stands 12 below the virtual table's address |
| Casts.DoUpcast | libcxxrt/dynamic_cast.cpp:127-184 | the three kinds' loops and recursion compute the upcast along the first path and leave the pointer alone on failure |
| Casts.CastTo | libcxxrt/dynamic_cast.cpp:110-144 | `cast_to` agrees with the upcast for every class kind |
| Casts.NullMeansNotABase | libcxxrt/dynamic_cast.cpp:110-144 | with no subobject at null, null is returned iff the target is not a base |
| Casts.DynamicCast | libcxxrt/dynamic_cast.cpp:201-210 | whatever object the header before the subobject's virtual table names, the result is that object cast to the target |
| Casts.HeaderWords | libcxxrt/dynamic_cast.cpp:35-41 | the two words below a virtual table: how far to the whole object, and what it is |
| Casts.CastsAgree | libcxxrt/dynamic_cast.cpp:201-210 | in one object the result is the same from every subobject, null iff the target is no base of the whole object's class, the whole object when the target is that class, and the target's address when it has only one |
| Casts.UpcastIsAllowedIff | libcxxrt/dynamic_cast.cpp:146-184 | upcasts obey the ABI's rule on public and unambiguous bases iff the target is no base, or is public and unambiguous |
| Casts.PublicBase | include/libcxxrt/typeinfo.h:200-226 | flag bit 1 is what makes a base public |
| Casts.PrivateBaseFound | libcxxrt/dynamic_cast.cpp:149-182 | a base that is not public is found |
| Casts.AmbiguousBaseFound | libcxxrt/dynamic_cast.cpp:149-182 | of a base twice in the object the first is found |
| Leb128.ReadLeb128 | include/libcxxrt/dwarf_eh.h:156-182 | the loop returns the sum of the shifted digits modulo 2^64, seven bits for each octet used, and the cursor past them |
| Leb128.ReadUleb128 | include/libcxxrt/dwarf_eh.h:189-193 | the same as a signed 64-bit value |
| Leb128.ReadSleb128 | include/libcxxrt/dwarf_eh.h:200-212 | the same, sign-extended from the top bit read |
| Leb128.UnsignedRead | include/libcxxrt/dwarf_eh.h:156-193 | up to five octets yield the low 32 bits as an `int` |
| Leb128.SignedRead | include/libcxxrt/dwarf_eh.h:156-212 | the same for the signed reader |
| Leb128.UnsignedRoundTrip | include/libcxxrt/dwarf_eh.h:156-193 | for every number: reading inverts encoding, with the cursor advanced by the encoded length, iff it is below 2^31 |
| Leb128.SignedRoundTrip | include/libcxxrt/dwarf_eh.h:156-212 | for every number: the same iff an `int` holds it |
| Leb128.StopsWithinTen | include/libcxxrt/dwarf_eh.h:163-180 | the reader stops at the first octet below 128, and the assertion on the shift holds iff that is one of the first ten |
| Leb128.ShiftStartsOver | include/libcxxrt/dwarf_eh.h:171 | from the sixth octet on a digit is shifted as a low one |
| CallSites.ReadAt | include/libcxxrt/dwarf_eh.h:218-247 | the selected reader's value and cursor; no result where the source aborts |
| CallSites.ReadsTwo | include/libcxxrt/dwarf_eh.h:232-235 | the two-octet encodings, octet by octet, unsigned and signed |
| CallSites.ReadsFour | include/libcxxrt/dwarf_eh.h:233-238 | the four-octet encodings, unsigned, signed and absolute pointer |
| CallSites.ReadsEight | include/libcxxrt/dwarf_eh.h:234-237 | the eight-octet encodings |
| CallSites.ReadsBase128 | include/libcxxrt/dwarf_eh.h:241-244 | the base-128 encodings, unsigned and signed |
| CallSites.ReadsNothing | include/libcxxrt/dwarf_eh.h:84-87 | every other encoding aborts, too few octets give nothing, and the high four bits of the encoding do not matter |
| CallSites.ReadsBackIff | include/libcxxrt/dwarf_eh.h:218-247 | in every encoding, reading inverts encoding and advances the cursor by the encoded length iff the number is below the encoding's limit |
| CallSites.FindCallsite | include/libcxxrt/dwarf_eh.h:406-460 | the loop computes the search of the table |
| CallSites.SearchStep | include/libcxxrt/dwarf_eh.h:419-457 | what one encoded entry in front of the cursor does to the search |
| CallSites.SearchIsLookup | include/libcxxrt/dwarf_eh.h:416-459 | on a sorted encoded table: the first covering entry's pad and action; else false if some start lies beyond; else whatever the octets at the action table read as |
| CallSites.LaterStartsCoverNothing | include/libcxxrt/dwarf_eh.h:423-427 | why the early break skips nothing |
| CallSites.CoveringIsFound | include/libcxxrt/dwarf_eh.h:443 | with disjoint ranges exactly one entry covers ip, and it is the first |
| CallSites.FindsCoveringEntry | include/libcxxrt/dwarf_eh.h:406-460 | for a sorted table with disjoint ranges and a covered ip: that entry's pad counted from the header's address, none for 0, and its record in the action table, counted from 1 |
| CallSites.FoundInTable | include/libcxxrt/dwarf_eh.h:406-460 | a table of one entry, octet by octet |
| CallSites.AnswersAsMeantIff | include/libcxxrt/dwarf_eh.h:406-460 | the search answers what a sorted table says iff ip is covered, or some entry starts beyond it, or the octets at the action table, read as an entry, start beyond ip or do not cover it |
| CallSites.ReadsPastTheTable | include/libcxxrt/dwarf_eh.h:416 | an empty table whose action table answers for it |
| Numbers.Strtol | kernel/std/stdlib.cpp:544-620 | the value of the longest digit run after spaces, sign and prefix, saturated at a 32-bit `long`, and the end past its last digit, or 0 and the start of the text without digits |
| Numbers.CutoffExact | kernel/std/stdlib.cpp:592-606 | the cutoff test is true iff the next value exceeds the limit |
| Numbers.Accumulates | kernel/std/stdlib.cpp:592-610 | over the limit stays over it, and within it the unsigned accumulator never wraps |
| Numbers.RunStep | kernel/std/stdlib.cpp:595-611 | a digit lengthens the run and its value, anything else ends it |
| Numbers.IsoExactly | kernel/std/stdlib.cpp:544-620 | for every text and base the result and end are those of ISO C11, written out apart, iff no upper-case digit ends the run and a prefix taken has a digit after it |
| Numbers.NotIso | kernel/std/stdlib.cpp:563-619 | a text with a bare prefix and one with an upper-case digit, where the two differ |
| Numbers.Scratch | kernel/std/stdlib.cpp:276-285 | the first loop leaves the digits in the scratch buffer, last first |
| Numbers.Itoa | kernel/std/stdlib.cpp:264-300 | the buffer holds the printed number and a zero, the result is its length, the rest of the buffer is untouched, and the sixteen scratch digits are not exceeded |
| Numbers.DigitCount | kernel/std/stdlib.cpp:265-285 | n digits suffice iff the number is below the n-th power of the radix |
| Numbers.SixteenSuffice | kernel/std/stdlib.cpp:265 | from radix 4 on sixteen always suffice |
| Numbers.NumeralReads | kernel/std/stdlib.cpp:276-284 | every printed character is a digit of the radix, and their value is the number |
| Numbers.PrintedLayout | kernel/std/stdlib.cpp:563-580 | printed text is read as a sign and digits, never as space or a prefix |
| Numbers.PrintThenParse | kernel/std/stdlib.cpp:264-620 | parsing the whole printed text gives the value for radix 10 or a value not negative, and LONG_MAX for the rest; the standard reads it alike |
| Strtok.Tokenizer.Strlen | kernel/std/stdlib.cpp:10-18 | the distance to the first zero |
| Strtok.Tokenizer.Strspn | kernel/std/stdlib.cpp:108-124 | the longest prefix of accepted characters |
| Strtok.Tokenizer.Strtok | kernel/std/stdlib.cpp:127-184 | one call: token, exactly the delimiters after it zeroed, the rest remembered, `nxt + size` at the string's end; NULL and no change when nothing is left |
| Strtok.Tokenizer.Advance | kernel/std/stdlib.cpp:160-182 | the scanning loop with its step back, which ends |
| Strtok.Tokenizer.Tokenize | kernel/command.cpp:8-15 | the loop over all calls returns all tokens, each still intact as a C string at the end |
| Strtok.Here | kernel/std/stdlib.cpp:162 | `strspn` at the scan position is 0 before the token's end and all delimiters there |
| Strtok.Ends | kernel/std/stdlib.cpp:160-182 | the loop's final position is where the next call can start |
| Strtok.NextCall | kernel/std/stdlib.cpp:144-149 | a NULL call takes the next piece and keeps the earlier tokens intact |
| Strtok.PiecesAreRuns | kernel/std/stdlib.cpp:127-184 | from the start of a run on, the tokens of repeated calls are exactly the maximal delimiter-free runs, in order |
| Strtok.TokensAreRuns | kernel/std/stdlib.cpp:127-184 | the tokens of all calls are those runs, after one empty token iff the string is empty or starts with a delimiter |
| RingBuffer.EmptyAndFull | kernel/std/ringbuffer.cpp:4-27 | the two index tests are true iff nothing, or one less than the size, is held |
| RingBuffer.Ring.constructor | kernel/drivers/keyboard.cpp:56 | the ring is set up empty over its storage |
| RingBuffer.StartIsSound | kernel/drivers/keyboard.cpp:56 | a run may start from any indices with both sides outside |
| RingBuffer.Ring.BufferRead | kernel/std/ringbuffer.cpp:3-17 | the oldest byte is taken, -1 iff none is held |
| RingBuffer.Ring.BufferWrite | kernel/std/ringbuffer.cpp:19-32 | the byte is added last, -1 iff one less than the size are held |
| RingBuffer.StepRefines | kernel/std/ringbuffer.cpp:3-32 | every single access of either side keeps the invariant and either leaves the queue alone or returns from a call the queue allows |
| RingBuffer.RunIsQueue | kernel/std/ringbuffer.cpp:3-32 | on every interleaving, the returns are those of calls made one after the other on a bounded FIFO queue |
| RingBuffer.ReplayKeepsOrder | kernel/std/ringbuffer.cpp:3-32 | such a queue loses, adds and reorders nothing |
| RingBuffer.ReadsArePrefix | kernel/std/ringbuffer.cpp:3-32 | on every interleaving the bytes read, followed by those held, are those accepted |
| RingBuffer.ReadAlone | kernel/std/ringbuffer.cpp:3-17 | a read without the writer's steps between its own, wherever the writer stands, returns in at most three steps what the contract of the call says |
| RingBuffer.WriteAlone | kernel/std/ringbuffer.cpp:19-32 | a write that comes all at once, also in the middle of a read, returns in at most three steps what the contract of the call says |
| RingBuffer.CallFinishes | kernel/std/ringbuffer.cpp:3-32 | a call under way ends in two more steps of its own with the oldest byte, or the byte it was given |

## Left out

- FrameAllocator.BitmapAllocator.constructor: available regions must end within the bitmap, because the source does not check the index it writes through; the memory map and the kernel's end are parameters.
- The `free_pages` counter: the constructor takes pages it never freed, so it is not the number of free frames; nothing reads it.
- TLB effects, the interrupt flag (a zero-size `vmalloc` leaves interrupts off) and weak memory order: steps are sequentially consistent.
- PageTables.PageTableManager.MapPage: the directory must be mapped at the address the manager holds by the boot code's large page, as boot.s leaves it.
- Heap.KernelHeap.Vmalloc: the heap must end below the page-table window at 0xFFC00000, which the source does not check.
- Heap.KernelHeap.MapHeapPages: a frame is always found, since the source does not check for none; what happens without is said by `OthersKeptIff`. Memory is the bytes of pages with frames of their own, justified by `MapPageShows` and `StoreShows`.
- Heap.KernelHeap.MapPage and ZeroPage stand for the manager's `MapPage` and `memset` as the heap sees them; `kcalloc`, `realloc` and the empty `free`s are not modelled.
- Guard: the one-word variant and the big-endian constants; the constants used are those of the little-endian branch. Waiting for a lock another thread keeps is unbounded, as in the source.
- Exceptions: foreign exceptions, the personality routine and unwinding, `uncaughtExceptions` (rethrow does not count up but catching counts down), terminate handlers, destructors, freeing an exception that was never thrown, and the copy of `exceptionType` when a dependent exception is made.
- CxaRuntime.Runtime.ThrowNew: the address of a new exception is a parameter that must not be live, as an allocator guarantees. The functions are atomic with respect to each other; the source updates reference counts atomically and lists per thread.
- EmergencyPool: `calloc` may return any address outside the pool, live or not; waking from the condition variable may happen at any time, so neither lost wake-ups nor fairness is claimed.
- Scheduler.Threads.Next: the first call must come on a stack that is no thread's, and every later one with room for the call and four registers on the running thread's stack, which the source does not check; the interrupt frame it copies is reduced to the saved stack pointer, the only field the switch reads.
- Scheduler.Threads.StartThread: the title and the other seeded registers, which no switch reads; memory for a thread is a parameter apart from every other thread's.
- Casts: type information is a finite hierarchy whose identity is its structure and ids; exception matching for pointers (`__do_catch`) is not modelled.
- Leb128.ReadSleb128: a shift by 64 or more, which a ten-octet number reaches and C leaves undefined, is taken to yield 0; 32-bit shift counts are taken modulo 32, as the i686 does.
- CallSites: parsing of the table's header and the resolving of indirect and relative values; the instruction pointer is given as an offset.
- Numbers.Itoa: the negation of INT_MIN, undefined in C, wraps around; radixes below 4 are covered while the number fits sixteen digits, as the scratch buffer demands.
- Numbers.Strtol: bases other than 0 and 2 to 36.
- Strtok.Tokenizer.Strtok: the delimiter string is a value, so it cannot overlap the text; a first call with NULL, before any string, reads through a null pointer in the source and is excluded.
- Numbers.Scratch: is the first loop of `itoa`, separated from the rest.
- Strtok.Tokenizer.Advance: is the loop of `strtok`, separated from its first lines.
- RingBuffer: `buffer_clear`, and `kb_update`, which writes into the ring's storage without the two calls.
- The demangler (it assigns a comparison where it should assign a number, libcxxrt/libelftc_dem_gnu3.cpp:1985), the message queue (`wrap` subtracts a quotient, include/kernel/proc/message.hpp:74), and the mutexes (test and set are separate steps, kernel/proc/mutex.cpp:5-10): what they are named for does not hold.
- Port I/O, disks and file systems, graphics, terminal, keyboard map, descriptor tables, `vsprintf`, and string helpers: hardware, or only easy members.
