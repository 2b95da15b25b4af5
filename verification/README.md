# HypnoticOS: verified models of its core

Dafny models of four parts of HypnoticOS whose correctness rests on invariants
that span many functions, with proofs that hold for every input and every run.

* **Kernel allocator** (`Memory.dfy`). First-fit search over the allocations in
  use; the list of tables that records them is itself allocated by the
  allocator, and recording an allocation may re-enter it. `Allocator` keeps the
  tables, the slots and the bytes of memory as fields that its methods edit.
* **Page tables and process memory** (`Paging.dfy`, `ProcessMemory.dfy`,
  `Sharing.dfy`, `StackEnd.dfy`, `MemoryRuns.dfy`). 512-entry tables in physical
  frames, edited in place and allocated by the allocator above, stand for a flat map from virtual page to frame and flags
  (Intel 64 and IA-32 Architectures Software Developer's Manual, volume 3A,
  section 4.5). Beside them each process has an index of mapped addresses. A
  ghost map `home` says which page a frame was handed out for, and a ghost set
  `loose` which frames may be shared.
* **Dispatcher** (`Scheduler.dfy`, `Transitions.dfy`, `Outcomes.dfy`,
  `Fairness.dfy`, `Calls.dfy`, `Dispatcher.dfy`). Every interrupt handler runs under one
  lock, so each handler is one step of a transition system with any number of
  processors and processes. `Transitions.Next` is that step; the class
  `Dispatcher` has the source's loops and fields and is proved equal to it; the
  other files prove properties of single steps and of whole runs. Whether a key
  completes a read, and what a system call asks for, is left to the environment.
* **HypnoticFS** (`Path.dfy`, `Format.dfy`, `Catalog.dfy`, `Image.dfy`,
  `HostTools.dfy`, `KernelFs.dfy`, `KernelReader.dfy`, `EndToEnd.dfy`). Host
  tools build an image byte by byte and the kernel reads it. `Image.Represents`
  relates the bytes to a tree of directories and files; the tools extend that
  tree and the kernel's lookup, read and listing answer from it.

Main results: allocations in use, bookkeeping included, stay disjoint through
every request, release and reallocation, a request restarts at most once, and it
is answered from what is free, also when the tables had to grow; any sequence of
page mappings equals the flat map, with no shared table; every call that builds
the memory of a process asks for exactly the memory told from the state before
it, fails exactly if that is not granted, and otherwise changes no byte in use;
over any sequence of calls a page that a user can reach leads to a frame of its
own, mapped nowhere else, no page table and apart from all other allocations,
unless it is one of the frames that some call made loose, by the exact condition
given below; no process runs on two processors, a process that is ready, or
whose sleep or read can end, is overtaken at most 2(n - 1) times and waits at
most 3(n - 1) timer interrupts, and its registers survive the wait; a sleep
lasts as long as it asks for; every file added to an image is read back by the
kernel unchanged by its consolidated path, whatever was added later.

Run `dafny verify dfyconfig.toml` to check everything.

## Model

| member | source | states |
|---|---|---|
| Memory.Allocator.constructor | src/memory/new-block.c:50-68 | After boot, with at most 90 ranges taken and disjoint from each other and from the first table, the tables are well formed and hold the table's own range. |
| Memory.Allocator.CheckFree | src/memory/find.c:58-88 | Answers free exactly if no allocation in use clashes; otherwise gives the end of the first one that does, across all linked tables. |
| Memory.Allocator.AlignDown | src/memory/find.c:90-104 | Succeeds exactly if some multiple lies between the minimum and the address, and then gives the multiple that the address is less than one step above. |
| Memory.Allocator.FindSpace | src/memory/find.c:106-142 | The skipping search returns the least usable address of the earliest available block that has one (aligned blocks and multiples of 4096 when alignment is asked for); 0 when no block has any, and when that least address is itself 0. |
| Memory.FirstFitIs | src/memory/find.c:111-138 | The least candidate of the first block with a candidate is the answer. |
| Memory.FirstFitFinds | src/memory/find.c:106-142 | The search finds nothing exactly if no block has a usable address, or the least one of the first block with one is 0; otherwise it finds that least one. |
| Memory.FirstFitFree | src/memory/find.c:128-135 | An address that is found is free for the whole size and aligned as asked. |
| Memory.SkipsNothing | src/memory/find.c:128-133 | Jumping to the end of a clashing allocation passes over no usable address. |
| Memory.NothingBetweenPages | src/memory/find.c:129-130 | Stepping 4096 on passes over no aligned usable address. |
| Memory.Allocator.Allocated | src/memory/alloc.c:24-57 | Records in the first unused slot, or, exactly when the slots before the mark are all in use and no table is being created, grows the tables and asks for a restart. |
| Memory.Allocator.CreateTable | src/memory/table.c:25-40 | Takes a list node and storage from the old tables and links an empty table at the tail; apart from the node, whose contents are an element of `tables`, bytes change only inside the new storage. |
| Memory.Allocator.CreateStorage | src/memory/table.c:34-39 | The storage half of growth, including the failed request that would be written through as NULL. |
| Memory.Allocator.Search | src/memory/alloc.c:63-85 | One pass: answer, exhausted, fault, halt, or try again after growth. |
| Memory.Allocator.MallocAlign | src/memory/alloc.c:59-88 | The loop makes one pass when nested and at most two at top level. In the slots it leaves, a refusal means that there is no space, and a range granted is the first usable one over everything in use but itself. |
| Memory.Allocator.Malloc | src/memory/alloc.c:59-88 | On well-formed tables a request never halts, keeps them well formed, adds nothing but the range granted and at most one new table's, and changes no byte of an allocation in use. In the slots left by the call: it is refused only where no block has a usable address or the least one of the first block with one is 0, and a range granted is that least one, over all slots but its own. The tables grow exactly if only nine slots were left and space was found, and it faults exactly then, for want of space for the node or the storage. |
| Memory.RecordFacts | src/memory/alloc.c:32-39 | Recording a free range keeps all allocations in use disjoint and moves none. |
| Memory.NestedFacts | src/memory/table.c:31-34 | A request made while a table is created adds exactly its own range, apart from everything in use. |
| Memory.GrowHasRoom | src/memory/alloc.c:42-51 | With the last nine slots of the final table free, growth never finds the tables full and leaves room so that the restarted request does not grow again. |
| Memory.GrowKeeps | src/memory/table.c:25-40 | Growth keeps every allocation, keeps them disjoint, and adds exactly the two that hold the new table. |
| Memory.GrowHeld | src/memory/table.c:31-39 | Every table's storage and node stays an allocation in use, the new table's included. |
| Memory.GrowFails | src/memory/table.c:31-39 | Growth fails only for want of space for the list node or, once that was granted, for the storage. |
| Memory.RequestKeepsWellFormed | src/memory/alloc.c:59-88 | Every top-level request keeps all allocations in use, bookkeeping included, disjoint, keeps the nine free slots, restarts at most once, and never reaches either HALT. |
| Memory.RequestJustified | src/memory/alloc.c:76-85 | After growth the search is made again: a request is answered from what is free in the slots it leaves, whether the tables grew or not. |
| Memory.PlainRequest | src/memory/alloc.c:63-87 | A request that needs no growth takes exactly the first-fit range. |
| Memory.AddressStaysFreeIffEmpty | src/memory/find.c:70-78 | After a range was granted its address is still free for a request exactly if the range was empty: the limit of the promise on size 0. |
| Memory.Allocator.Find | src/memory/find.c:31-49 | The first slot in use that starts at the address, across all tables, or none. |
| Memory.Allocator.Free | libc/stdlib/free.c:26-37 | Releases exactly that slot, halts exactly when there is none, and keeps the tables well formed if the address is no table's own. |
| Memory.ReleaseKeepsWellFormed | libc/stdlib/free.c:34-36 | Releasing an allocation that is no bookkeeping keeps the invariant. |
| Memory.StartsDistinct | src/memory/find.c:31-49 | Two allocations in use of positive size never start at one address, so that an address names one allocation. |
| Memory.FreeIsNotBookkeeping | src/memory/table.c:31-34 | A range that is free is no table's storage or node. |
| Memory.Allocator.Realloc | libc/stdlib/realloc.c:25-45 | NULL exactly for an unknown address, with nothing changed. Otherwise one request is made, the new block carries the first bytes of the old one and zeros, no byte of another allocation changes, and the first block then in use at the old address is released. A block of positive size that is no table's own is thereby replaced, and nothing else is. |
| Memory.Allocator.ReallocSlot | libc/stdlib/realloc.c:33-44 | The same for a block that was found, of any size. |
| Memory.ReallocHolds | libc/stdlib/realloc.c:33-42 | Why the contents are carried over: the two blocks do not overlap, and a table created in between leaves the old bytes alone. |
| Memory.MovesReplaces | libc/stdlib/realloc.c:33-42 | A block of positive size that is no table's own is given up for one new block, and nothing else in use is added, removed or moved. |
| Memory.ReplacesIff | libc/stdlib/realloc.c:33-42 | A block of any size is replaced exactly if the request in between leaves it the first one at its address. |
| Memory.EmptyBlockStays | libc/stdlib/realloc.c:33-42 | That condition before the call, when the tables need not grow: the first fit is another address, or the old block's slot lies before the first unused one. Otherwise the block released is the new one. |
| Memory.EmptyBlockIsLost | libc/stdlib/realloc.c:33-42 | A concrete table on which resizing an empty block to 8 bytes grants its own address in an earlier slot, so that the new block is the one released. |
| Memory.OldBlockStays | libc/stdlib/realloc.c:33-42 | A request in between, even one that creates a table, leaves the old block the one its address names. |
| Memory.LiveBytesKept | src/memory/table.c:37 | Clearing a new table changes no byte of an allocation in use. |
| Memory.CarriesHolds | libc/stdlib/realloc.c:35-40 | The new block holds the common prefix and zeros; bytes of all other allocations are unchanged. |
| Memory.Allocator.Refill | libc/stdlib/realloc.c:35-40 | Copy of the smaller size, then zeros up to the new size, and no byte elsewhere. |
| Memory.Allocator.MoveBlock | libc/stdlib/realloc.c:35-42 | Copy, then release of the old block. |
| Memory.Allocator.MemSet | libc/string/memset.c:22-30 | Exactly the range holds the value. |
| Memory.Allocator.MemCpy | libc/string/memcpy.c:22-30 | Exactly the destination changes, to the source's bytes. |
| PageTree.WalkReaches | src/memory/paging.c:124-161 | In a tree of tables the walk for a page passes through the table that serves the page. |
| PageTree.WalkUnchanged | src/memory/paging.c:124-161 | A change of one entry is invisible to every walk that does not pass through it. |
| PageTree.InstallTranslates | src/memory/paging.c:210-262 | Writing a leaf changes the translation of exactly the pages under that entry, in every address space. |
| PageTree.AttachKeepsTree | src/memory/paging.c:193-202 | Hanging a fresh zeroed table below an absent entry keeps the tables a tree with no shared child. |
| PageTree.AttachTranslates | src/memory/paging.c:193-202 | A new empty table changes no translation. |
| PageTree.NoTableThere | src/memory/paging.c:189-258 | Below an entry that is no pointer there is no table. |
| PageTree.SmallBlockedIff | src/memory/paging.c:214-244 | A 4KB mapping is blocked exactly if a large page maps the address. |
| PageTree.LargeNeedsUnmapped | src/memory/paging.c:204-240 | A 2MB or 1GB mapping is let through only if every page of its range is unmapped. |
| PageTree.LeafRun | src/memory/paging.c:27-30 | The pages under a leaf are exactly its aligned run of 1, 512 or 262144 pages. |
| Paging.PageTables.SplitAddress | src/memory/paging.c:27-30 | The shifts and masks select the indices of the walk, for addresses below 2^48. |
| Paging.PageTables.PagePresent | src/memory/paging.c:124-161 | Finds exactly the leaf that the hardware walk ends at, or none. |
| Paging.PageTables.NewTable | src/memory/paging.c:193-202 | One page is asked for; if it is granted it becomes a zeroed table below the entry, otherwise no table changes. |
| Paging.PageTables.NextTable | src/memory/paging.c:189-202 | Follows a present entry without any change, or attaches a new zeroed table; translations and what is blocked stay the same. |
| Paging.PageTables.SetPage | src/memory/paging.c:163-263 | Refused exactly for misaligned addresses, unknown sizes and blocked ways, and then no table, allocation or byte changes. Otherwise exactly as many pages are asked for as tables are missing on the way, and the page is installed exactly if all are granted: then just those tables are new, in memory that was in no allocation, exactly the range asked for is remapped, and no byte of an allocation in use changes. |
| Paging.PageTables.SetInDirectory | src/memory/paging.c:204-230 | The same from the second level on. |
| Paging.PageTables.SetInTable | src/memory/paging.c:232-258 | The same from the third level on. |
| Paging.WhyRefused | src/memory/paging.c:193-202 | Why a call fails: at the first request that is refused, all before it having been granted, the slots left have no space for it, or none for the allocator's own new table. |
| Paging.PageTables.Install | src/memory/paging.c:260-262 | Writing the leaf remaps exactly the run. |
| Paging.PageTables.ChangeFlags | src/memory/paging.c:107-122 | Fails exactly for unmapped addresses; otherwise only the flags of the page that holds the address change, and the tables stay a tree exactly if a large leaf keeps its mark. |
| Paging.FlagsChanged | src/memory/paging.c:115-119 | Editing a leaf's flags keeps the tables a tree exactly if a large leaf keeps its mark, and then changes the flags of exactly the pages under it. |
| Paging.ReflagsIff | src/memory/paging.c:115-119 | Editing a leaf's flags does what it should for every page exactly if a large leaf that stays present keeps its mark, or the walk that goes on into the mapped memory finds there a table that maps the same pages; when that memory is no table, exactly if the mark is kept. |
| Paging.ClearingTheMarkUnmaps | src/memory/paging.c:115-119 | A concrete 2MB page at address 0 that is no longer mapped once its mark is cleared, although it stays present. |
| Paging.PageTables.NewRoot | src/memory/paging.c:71-72 | One page is asked for; if it is granted, the new top-level table maps nothing and all other address spaces are left alone. |
| Paging.PageTables.ImitateRange | src/memory/paging.c:80-86 | Exactly the kernel's pages are mapped to themselves, its text read-only; exactly the tables they lack are asked for, and it fails exactly if one is not granted. |
| Paging.PageTables.ImitateTasks | src/memory/paging.c:89-101 | The task segments and stacks of every processor are mapped to themselves, with the same promise on requests. |
| Paging.PageTables.NewSpace | src/memory/paging.c:67-105 | A new address space maps the task segments, the kernel and nothing else, and no other address space changes. The requests are the root and the tables that these pages need, and it fails exactly if one is not granted. |
| Paging.NoSharedChild | src/memory/paging.c:193-258 | No two entries anywhere refer to the same table. |
| Paging.LargeRunWasUnmapped | src/memory/paging.c:204-240 | A large page is never installed over a mapped page. |
| Paging.SmallRefusedIffLarge | src/memory/paging.c:214-244 | An aligned 4KB set is refused exactly if a large page already maps the address, so it never splits or shadows one. |
| Paging.PageTables.SetPages | src/memory/paging.c:163-263 | Any sequence of calls, on any address spaces: the tables are a tree before every call and after the last, each call was accepted exactly if aligned and not blocked on that tree, took it to the next by exactly its remapping and asked for exactly the tables missing, and every walk is the flat map of the accepted calls over what it was at the start. The sequence ends early exactly at a call whose tables are not all granted. |
| ProcessMemory.AddressSpaces.CheckVa | src/dispatcher/memory.c:28-44 | 0 exactly if the page is not indexed; otherwise its first entry decides, with 2 when that entry is to be ignored and 1 when not. |
| ProcessMemory.AddressSpaces.GetPa | src/dispatcher/memory.c:75-97 | For an indexed page that is not ignored, exactly the physical address the hardware walk from the process's cr3 reaches. |
| ProcessMemory.AddressSpaces.Map | src/dispatcher/memory.c:46-73 | Refused exactly for misaligned addresses and indexed pages, with nothing changed. Otherwise exactly the tables that the page lacks are asked for, and if all are granted, whatever the frame, index and page tables gain the same page and stay in agreement for all processes. The frame becomes loose exactly unless it was handed out for this page, or is held, not handed out and mapped for the kernel alone. No byte of an allocation in use changes. |
| ProcessMemory.AddressSpaces.AllocatePage | src/dispatcher/memory.c:99-124 | One page, and then exactly the tables its address lacks, are asked for, and it fails exactly if one is not granted. The page, which was in no allocation, is handed out, mapped at one page of one process and, unless it is loose, nowhere else, and zeroed; at a misaligned or indexed address it is given back instead. No other page loses its home, no frame becomes loose, and no byte of an allocation that was in use changes. |
| ProcessMemory.AddressSpaces.GiveBack | src/dispatcher/memory.c:108-112 | Releasing a page that is mapped nowhere, or is loose, keeps every other mapping backed by an allocation. |
| ProcessMemory.GivenBack | src/dispatcher/memory.c:108-112 | Giving a page back leaves in use exactly what was in use before and the bookkeeping of a table created meanwhile, unless an empty allocation starts at the page's address. |
| ProcessMemory.ConsistentMapped | src/dispatcher/memory.c:60-72 | Mapping one page, to any frame, keeps index and tables in agreement in every process, and every frame that is not loose to itself. |
| ProcessMemory.ConsistentClaimed | src/dispatcher/memory.c:102-120 | Handing out frames that are private memory of a process and mapped nowhere, or loose, keeps everything consistent. |
| ProcessMemory.UnheldIsNowhere | src/dispatcher/memory.c:102-106 | A frame in no allocation was not handed out, and is mapped in no process unless it is loose. |
| ProcessMemory.ConsistentAdded | src/dispatcher/new.c:86-105 | A new address space agrees with its empty index and shares nothing but the kernel's pages; those in no allocation, or handed out, become loose. |
| ProcessMemory.ReleasePage | src/dispatcher/memory.c:109 | Releasing a page uncovers no other frame and is no release of bookkeeping. |
| Sharing.MapExclusiveIff | src/dispatcher/memory.c:46-73 | Mapping a page keeps every mapped frame to itself exactly if the frame was handed out for that page, or the page is the kernel's alone and its frame is held and was not handed out. |
| Sharing.UserPageIsItsOwn | src/dispatcher/memory.c:99-124 | In every state a page that the user can reach leads, unless loose, to a frame handed out for it: mapped nowhere else, no page table, apart from the allocator's tables and list nodes, and sharing no byte with any other allocation. |
| Sharing.PrivateIsApart | src/memory/find.c:58-88 | A frame inside a page or stack of a process shares no byte with another allocation or with the allocator's own tables. |
| Sharing.GrantableIff | src/memory/find.c:58-88 | A frame can be the next page granted exactly if the allocator's own test finds it free. |
| Sharing.GrantableLaterIff | src/memory/find.c:58-88 | Once other allocations are released, which leaves the allocator well formed, a mapped frame can be granted to another page exactly if it lies in no allocation and no table of the allocator starts right behind it. |
| Sharing.FreeIff | src/memory/find.c:70-78 | The allocator finds a page free exactly if no allocation shares a byte with it and none starts right behind it. |
| ProcessMemory.AddressSpaces.TakeStack | src/dispatcher/new.c:26-36 | The memory of a stack was free, is zeroed, and its whole frames are handed out for the stack's pages. |
| ProcessMemory.AddressSpaces.SetUpStack | src/dispatcher/new.c:26-50 | The stack gets memory that was free, which is zeroed at the end and whose whole frames are handed out, and size / 4096 + 1 pages are indexed and mapped from its start; no other page, and no byte of an allocation that was in use, changes. The last becomes loose unless it was handed out for its page. Refused exactly at a page that is indexed, with the pages before it kept and nothing made loose. It fails exactly if that memory, or a table that the pages up to there lack, is not granted. |
| StackEnd.LastPageOwnIff | src/dispatcher/new.c:29-43 | The last page of a stack is its own exactly if the size is at least 2048 over a multiple of 4096, or the frame was handed out for it before. |
| StackEnd.PageBehindIsNext | src/memory/find.c:106-142 | After a stack of 4096 bytes was granted without growth, the page behind it is the next one granted exactly if it was free before. |
| StackEnd.LaunchStack | src/dispatcher/new.c:231-237 | The stack of every launch has a second page, writable by the user, whose frame is loose or was handed out for it before; in a process with no tables near its stack that frame is the process's own table of the third level exactly if the page behind the stack's memory was free before the call. |
| StackEnd.StackThenPage | src/dispatcher/new.c:26-50 | Where the tables are there and the page behind the stack's memory was free, the page handed out next, to any process, is the second page of that stack. |
| StackEnd.SharedStackPage | src/dispatcher/new.c:26-50 | A concrete well-formed kernel with two processes: the stack of one is set up as every launch does, the next page goes to the other, and both processes can write the same frame. |
| Sharing.PagesHeldIff | src/memory/paging.c:76-101 | The pages mapped for a range inside an allocation are all held exactly if the range ends inside a page or some allocation shares a byte with the page behind it. |
| Sharing.KernelTightIff | src/memory/paging.c:76-101 | A new address space makes no frame loose exactly if the kernel's range and every task segment and stack end so, and none of their pages was handed out. |
| ProcessMemory.AddressSpaces.NewProcess | src/dispatcher/new.c:73-107 | A new process maps the kernel and one heap page of its own at the heap address, indexed; all records and translations of other processes are unchanged, pages handed out before keep their homes, and no frame becomes loose but kernel pages in no allocation or handed out. The requests are told from the arguments alone, and it fails exactly if one is not granted; otherwise no byte of an allocation that was in use changes. |
| ProcessMemory.AddressSpaces.GrowHeap | src/function/new-page.c:33-38 | One turn: the page at the heap's end is gained and the heap's size grows by it, or nothing is gained, refused where that page is misaligned or indexed; it fails exactly if the page or a table it lacks is not granted. |
| ProcessMemory.AddressSpaces.NewPage | src/function/new-page.c:29-44 | The heap grows by count / 0x1000 + 1 pages, each indexed, recorded and with a frame of its own from memory that was free, and the old end is returned; no other page of any process changes, pages handed out before keep their homes, and no frame becomes loose. It is refused at a page that is misaligned or indexed, with the pages gained before it kept and 0 returned. It fails exactly if a page, or a table that a page lacks, is not granted; otherwise no byte of an allocation that was in use changes. |
| MemoryRuns.Do | src/dispatcher/memory.c:46-124 | One call: everything that the called function promises, as a relation between the world before and after, and exactly the frames that become loose. Both these and the requests for memory that the call makes are told from the world before it; it fails exactly if one of those requests is not granted, and otherwise leaves every byte of every allocation that was in use as it was. |
| MemoryRuns.HeapDone | src/function/new-page.c:29-44 | Extending a heap fails exactly if the pages behind its end up to the first that is refused, that page itself and the tables they lack, as told before the call, are not all granted. |
| MemoryRuns.StackDone | src/dispatcher/new.c:26-50 | The same for a stack: its memory and the tables of its pages up to the first that is indexed. |
| MemoryRuns.StepAdds | src/dispatcher/new.c:26-50 | Exactly which frames a call makes loose: none for AllocatePage and NewPage; the frame mapped, unless refused or tight; the last of a stack, unless refused, covered by its memory or handed out for the page; for a new process the kernel's pages in no allocation or handed out. |
| MemoryRuns.RunLoose | src/dispatcher/memory.c:46-124 | In any run a frame is loose exactly if it was so at the start or some call made it so; pages handed out keep their homes. |
| MemoryRuns.RunKeepsApart | src/dispatcher/memory.c:99-124 | Over any run, a frame that no call made loose stays at the page it was handed out for, is mapped nowhere else, and no other page of a user leads to it. |
| MemoryRuns.DoAll | src/dispatcher/memory.c:46-124 | Any sequence of Map, AllocatePage, NewPage, SetUpStack and NewProcess calls is a run of such steps between the worlds before and after it, ending early exactly at the first call whose requests, as told from the world before that call, are not all granted; loose afterwards are exactly the frames that were so before and those that some call made so; every other frame handed out is mapped at its one page and nowhere else, and users reach of the others only private frames handed out for the page, never a page table. |
| Scheduler.ScanSettles | src/dispatcher/dispatcher.c:119-142 | Scanning leaves every process as it is, ends its suspension as it may at this time, a read with the value that the keyboard has for it, or removes it if it is exiting. |
| Scheduler.ScanTests | src/dispatcher/dispatcher.c:119-142 | A scan that reaches the end has tested every process and removed exactly those that were exiting. |
| Scheduler.ScanDecides | src/dispatcher/dispatcher.c:121-142 | The scan chooses the first process that may run in this cycle and reaches the end only if there is none. |
| Scheduler.ScanRan | src/dispatcher/dispatcher.c:120-138 | At the end of the list the flag is set exactly if a process that ran in this cycle lies behind every exiting one. |
| Transitions.NextKeepsInv | src/cpu/idt-c.c:100-240 | Every step keeps: distinct nonzero pids, no process on two processors, lock set exactly for a process some processor runs, every current process live, suspended and exiting processes unlocked, last cycle at most the cycle. |
| Transitions.SavedKeepsInv | src/dispatcher/dispatcher.c:57-100 | The HALT for an unknown current process is unreachable and the invariant is kept. |
| Transitions.PickNextKeepsInv | src/dispatcher/dispatcher.c:113-162 | Choosing a process keeps the invariant, with or without advancing the cycle. |
| Transitions.SuspendedKeepsInv | src/function/function.c:105-114 | Suspending or ending the running process keeps the invariant and frees its processor. |
| Transitions.KilledKeepsInv | src/cpu/idt-c.c:169-184 | Removing the process that caused an exception keeps the invariant; it halts exactly if the processor runs nothing. |
| Transitions.LaunchedKeepsInv | src/dispatcher/new.c:60-140 | A new process gets a pid that no live process has. |
| Transitions.CallKeepsInv | src/function/function.c:38-97 | Kernel functions keep the invariant; the HALT for sleeping twice is unreachable. |
| Outcomes.AdvancesOnce | src/dispatcher/dispatcher.c:144-155 | After the cycle was advanced the second scan never asks for it again, and finds nothing only if nothing can run. |
| Outcomes.CycleAdvances | src/dispatcher/dispatcher.c:144-155 | The cycle advances by one, and only when every process that can run has run in it. |
| Outcomes.ScanIs | src/dispatcher/dispatcher.c:116-142 | The scan, which shortens the list it walks and jumps back after each removal, is one pass from left to right: up to the first process that it does not pass over, exiting ones go and all others are tested, and nothing behind it changes. |
| Outcomes.ScanEndsIff | src/dispatcher/dispatcher.c:119-142 | The scan reaches the end of the list exactly if every process is exiting, or its test succeeds and it may not run in this cycle. |
| Outcomes.ScanLeavesRunnable | src/dispatcher/dispatcher.c:119-142 | After such a scan some process can run exactly if, before it, some process not exiting could once tested. |
| Outcomes.IdleWhileRunnable | src/dispatcher/dispatcher.c:119-150 | Exactly when a processor idles although a process could run, told from the table before the scan: the scan passes over every process, one of them can run once tested, and some process is exiting with none that ran in this cycle behind the last such. |
| Outcomes.IdleMeansNothingToRun | src/dispatcher/dispatcher.c:144-150 | With no exiting process a processor idles only if nothing can run after the suspension tests. |
| Outcomes.IdlesBesideRunnable | src/dispatcher/dispatcher.c:127-130 | A concrete table of two processes on which the processor idles beside one that could run. |
| Outcomes.HaltsExactly | src/cpu/idt-c.c:135-240 | Handlers other than the timer's halt exactly for kernel exceptions, spurious interrupts, unknown processors, and exceptions or system calls on a processor that runs nothing. |
| Outcomes.ScanBreaksIff | src/function/read.c:73-75 | A scan stops the kernel exactly if some process reads from something other than the keyboard and all before it are passed over. |
| Outcomes.PickNextHalts | src/dispatcher/dispatcher.c:113-162 | Choosing a process halts exactly if the first scan does; a second one never can. |
| Outcomes.TimerHaltsExactly | src/function/read.c:73-75 | Exactly when the timer's handler halts: the processor is unknown or, once the interrupted process is saved, some process reads from something other than the keyboard and the scan passes over all before it. |
| Outcomes.FreePidFirst | src/dispatcher/new.c:60-71 | The pid search stops at the first free pid after the last one, cyclically and skipping 0. |
| Outcomes.HungExactly | src/dispatcher/new.c:60-71 | The pid search fails to end exactly if all 65535 pids are in use. |
| Fairness.PickNextPicks | src/dispatcher/dispatcher.c:119-183 | The process dispatched had not run in the cycle and is loaded with its saved registers and cr3; every other process is only scanned over. A suspension ends only as it may: a sleep from its tick on, a read with a value that the keyboard has. |
| Fairness.StepUndisturbed | src/cpu/idt-c.c:100-240 | No step of any processor touches a waiting process except to dispatch it or to end its suspension, a sleep not before its tick, a read with a value that the keyboard has for it. |
| Fairness.ExitingStays | src/function/exit.c:28-34 | A process that called exit is never dispatched again and stays as it is until it is removed. |
| Fairness.TimeKept | src/cpu/idt-c.c:186-194 | The timer of the first processor moves the clock by one, modulo 2^64, and no other step moves it. |
| Fairness.StepAhead | src/dispatcher/dispatcher.c:119-159 | Per step: how many dispatches of others can still come before a process that is ready, or is woken once tested, never grows but by a launch, and each dispatch uses one up. |
| Fairness.RunKeepsInv | src/cpu/idt-c.c:100-240 | The invariant holds throughout every run. |
| Fairness.WaitingRun | src/dispatcher/dispatcher.c:119-159 | The accounting of dispatches, timer interrupts and launches over a run while such a process waits. |
| Fairness.BoundedWaiting | src/dispatcher/dispatcher.c:119-159 | A process that is ready, or sleeps and its tick has come, or reads and the keyboard has a value for it, is overtaken at most 2(n - 1) times and waits at most 3(n - 1) timer interrupts, plus 2 and 3 for each process launched meanwhile; if none leaves, every timer interrupt dispatches one. |
| Fairness.ContextKept | src/function/function.c:144-149 | Over any run, a process that is not dispatched changes at most by the end of its suspension. |
| Fairness.StepParks | src/dispatcher/dispatcher.c:57-91 | The step that takes the processor away saves the interrupted registers. |
| Fairness.ContextPreserved | src/dispatcher/dispatcher.c:57-182 | From losing the processor to the next dispatch, over every interleaving, registers are the interrupted ones but for rflags and, after a suspension, rax, which is 0 after a sleep. |
| Fairness.SleepsLongEnough | src/function/sleep.c:69-86 | Over any run a sleeping process is dispatched again only after the clock reached its tick, and never if its deadline overflowed. |
| Fairness.OncePerCycle | src/dispatcher/dispatcher.c:136-157 | Two dispatches of a process that lives on between them are in different, growing cycles. |
| Calls.ClockRuns | src/cpu/idt-c.c:186-194 | Over any run the tick count is the number of timer interrupts of the first processor, modulo 2^64. |
| Calls.SleepLasts | src/function/sleep.c:38-86 | A sleep lasts: from the call to the next dispatch of its process, over every interleaving, the clock reaches the tick of the call plus 10000 for each unit, and at least so many timer interrupts of the first processor arrive; there is no such dispatch if that sum leaves 64 bits. |
| Calls.SleepEnds | src/function/sleep.c:38-86 | A sleep ends: once that many timer interrupts of the first processor have arrived, and while the clock does not wrap, the process is dispatched within the bounds for one that is ready. |
| Calls.ReadReturns | src/function/read.c:65-312 | A read that returns was from the keyboard, and gives its process in rax a value that the keyboard had for it after the call. |
| Calls.ReadEnds | src/function/read.c:65-312 | While the keyboard has a value for a read, its process is dispatched within the bounds for one that is ready. |
| Calls.OutcomeTells | src/cpu/idt-c.c:100-240 | The outcome of every step tells what its processor runs afterwards: the process dispatched, the one it ran before, or none; no other processor changes. |
| Calls.CallGoesOn | src/cpu/idt-c.c:212-240 | A call that does not suspend goes on with its process on the same processor, with the result in rax and all other registers as they were; a launch returns the pid of the process started, or 0. |
| Calls.LaunchAdds | src/dispatcher/new.c:52-143 | A launch adds one process, with a pid that no process had, the address space and the registers of the launch, neither locked nor suspended, and runnable exactly if it was started; no other process changes, and an abandoned launch only uses up a pid. |
| Calls.StartedEnters | src/dispatcher/dispatcher.c:157-182 | The first dispatch of a started process, over every interleaving, loads the address space and the registers of its launch. |
| Calls.StartedRuns | src/dispatcher/dispatcher.c:119-159 | A started process is first dispatched within the bounds for one that is ready. |
| Calls.UnstartedStays | src/dispatcher/dispatcher.c:135 | A process that was launched but not started stays as it is and is never dispatched. |
| Calls.KillRemoves | src/cpu/idt-c.c:169-184 | An exception of a process removes exactly that process and idles its processor. |
| Calls.ExitEnds | src/function/exit.c:28-34 | A process that called exit is not dispatched while it is in the table. |
| Calls.IdleRemovesExited | src/dispatcher/dispatcher.c:126-129 | A timer interrupt after which the processor idles leaves no exiting process in the table. |
| Dispatching.Dispatcher.constructor | src/dispatcher/dispatcher.c:28-30 | The boot state meets the invariant. |
| Dispatching.Dispatcher.Find | src/dispatcher/dispatcher.c:32-42 | The first process with the pid. |
| Dispatching.Dispatcher.GetCpu | src/dispatcher/dispatcher.c:44-55 | The processor with the APIC id, or the halt. |
| Dispatching.Dispatcher.Save | src/dispatcher/dispatcher.c:57-100 | Saves the frame, unlocks the process and clears the processor, or changes nothing when it is idle. |
| Dispatching.Dispatcher.ProcessDone | src/dispatcher/done.c:23-45 | Shifting entries down in place removes exactly the process with the pid and keeps the order of the others. |
| Dispatching.Dispatcher.SuspendTest | src/function/function.c:121-137 | Wakes a sleeper exactly from its tick on unless its deadline overflowed, and a reader exactly when the keyboard completes its read. |
| Dispatching.Dispatcher.Done | src/function/function.c:144-149 | Ends the suspension and stores the result in rax. |
| Dispatching.Dispatcher.ScanList | src/dispatcher/dispatcher.c:119-142 | The loop with its jump back to `restart` computes the recursive scan. |
| Dispatching.Dispatcher.PickNext | src/dispatcher/dispatcher.c:113-191 | The gotos end, after advancing the cycle at most once, with the outcome of the specification. |
| Dispatching.Dispatcher.SetUpNext | src/dispatcher/dispatcher.c:105-191 | Save, then choose; loads the chosen process's registers or changes none. |
| Dispatching.Dispatcher.Load | src/dispatcher/dispatcher.c:157-182 | Locks the chosen process, marks its cycle, names it current and loads cr3 and every register but rflags. |
| Dispatching.Dispatcher.NewPid | src/dispatcher/new.c:60-71 | With a pid left, the wrapping loop ends at the first free one. |
| Dispatching.Dispatcher.ProcessNew | src/dispatcher/new.c:52-143 | The table gains one process with a fresh pid, or only the last pid moves when setup is abandoned. |
| Dispatching.Dispatcher.Suspend | src/function/function.c:105-114 | Suspend and save the caller. |
| Dispatching.Dispatcher.ExitProcess | src/function/exit.c:28-34 | Mark the caller as exiting, suspend and save it. |
| Dispatching.Dispatcher.KernelFunction | src/function/function.c:38-97 | Each kernel function's effect on the table, the processors and rax, as specified; what that means for the caller over whole runs is `SleepLasts`, `SleepEnds`, `ReadReturns`, `CallGoesOn`, `LaunchAdds` and `ExitEnds`. |
| Dispatching.Dispatcher.Kill | src/cpu/idt-c.c:169-184 | The process that caused an exception is removed and its processor idles. |
| Dispatching.Dispatcher.TimerTick | src/cpu/idt-c.c:186-194 | The first processor counts a tick, then the next process is set up. |
| Dispatching.Dispatcher.CallKernel | src/cpu/idt-c.c:212-220 | A system call acts for the current process, which exists whenever there is one. |
| Dispatching.Dispatcher.IdtCall | src/cpu/idt-c.c:100-240 | The handler as a whole is one step of the transition system and keeps the invariant. |
| Path.Segments | src/fs/path.c:43-60 | The characters between slashes, the last piece included. |
| Path.StrikeOut | src/fs/path.c:66-78 | A segment is left exactly if it is a name and the next segment is not "..". |
| Path.JoinLeft | src/fs/path.c:80-92 | The remaining segments joined, or failure exactly if they are too long together. |
| Path.Consolidate | src/fs/path.c:23-101 | Succeeds exactly for paths from the root that are not too long, with the surviving segments joined, or the root. |
| Path.Breakdown | src/fs/path.c:103-146 | The surviving segments in order, or NULL exactly where consolidation fails. |
| Path.AcceptedIff | src/fs/path.c:23-101 | Every rooted path of fewer than 1000 characters is accepted; a longer one exactly if what it consolidates to has fewer than 1000 and, in the kernel, it has at most 1000 itself. Consolidating makes no path longer. |
| Path.ConsolidatedStays | src/fs/path.c:23-101 | A path that is consolidated already is accepted exactly if it has fewer than 1000 characters, and stays as it is. |
| Path.ConsolidateIdempotent | src/fs/path.c:23-101 | Consolidating a consolidated path, by either copy of the function, changes nothing. |
| Path.BreakdownIsNames | src/fs/path.c:115-140 | Taking the consolidated path apart gives the surviving segments, and joining them gives the consolidated path back. |
| Path.SplitJoin | src/fs/path.c:80-140 | Joining and splitting are inverse on segments without slashes. |
| Path.JoinSplit | src/fs/path.c:43-92 | Joining the pieces of a rooted path gives the path back. |
| Path.ConsolidateResolvesIff | src/fs/path.c:66-78 | The result is what ".." usually means exactly if each ".." follows a name or has nothing to take back. |
| Path.TwoUpsKeepAName | src/fs/path.c:70-76 | "/a/b/../.." keeps "a". |
| Format.DecodeEncode | hypnoticfs-tools/hypnoticfs.h:40-47 | An entry written by the tools is read back the same. |
| Format.EncodeDecode | include/hypnoticos/fs/hypnoticfs.h:38-45 | Every 57 bytes are the encoding of exactly one entry. |
| Format.SlotCountExact | hypnoticfs-tools/hypnoticfs-add.c:158-160 | The slots are exactly those the loops visit, which end before the last byte of the index. |
| Format.WriteEntryChangesSlot | hypnoticfs-tools/hypnoticfs-add.c:243-247 | Writing an entry changes that slot and nothing else of the header, the index or the data. |
| Format.WriteDataKeepsEntries | hypnoticfs-tools/hypnoticfs-add.c:217-234 | Writing data behind the index changes no entry, even when the image grows. |
| Format.WriteAtTwice | hypnoticfs-tools/hypnoticfs-add.c:219-234 | Writing buffer after buffer is writing the whole file. |
| Catalog.DirInjective | hypnoticfs-tools/hypnoticfs-add.c:90-126 | Different directory names lead to different entries. |
| Catalog.DirIsFound | src/fs/hypnoticfs/hypnoticfs.c:62-97 | Following names through directories and finding the entry agree. |
| Catalog.AddedSound | hypnoticfs-tools/hypnoticfs-add.c:131-247 | A new entry keeps names unique in their directory, parents earlier directories, and used slots first. |
| Catalog.FindPathAfter | hypnoticfs-tools/hypnoticfs-add.c:131-247 | After adding an entry its own names lead to it and all other names lead where they did. |
| Catalog.PickOffsetNeverFails | hypnoticfs-tools/hypnoticfs-add.c:187-213 | The search for an extent always succeeds: its error message is unreachable. |
| Catalog.PickOffsetApart | hypnoticfs-tools/hypnoticfs-add.c:187-213 | The extent found starts behind the index and touches no other. |
| Catalog.ExtentsAdded | hypnoticfs-tools/hypnoticfs-add.c:187-241 | A new file keeps extents apart, behind the index, and their bytes inside the image. |
| Image.WithDirectoryRepresents | hypnoticfs-tools/hypnoticfs-mkdir.c:76-173 | A successful mkdir adds exactly that directory to the tree and keeps the image well formed. |
| Image.WithFileRepresents | hypnoticfs-tools/hypnoticfs-add.c:89-247 | A successful add adds exactly that file with its contents; every other file keeps its bytes. |
| Image.LocateExactly | hypnoticfs-tools/hypnoticfs-mkdir.c:76-157 | A place is found exactly if the directory exists, the name is new and fits, and a slot is left; of several reasons to refuse the first in the source's order is told. |
| Image.AddSucceedsExactly | hypnoticfs-tools/hypnoticfs-add.c:50-213 | Add succeeds exactly if the source's name fits, a place is found and the data is smaller than the part of the image behind the index; otherwise the first of these that fails is told. |
| Image.NewRepresents | hypnoticfs-tools/hypnoticfs-new.c:56-68 | A new image is well formed, has the size asked for, or that of its header if that is larger, and is empty. |
| Image.NewTakesExactly | hypnoticfs-tools/hypnoticfs-add.c:50-213 | Exactly which files a new image takes: those at the root whose name fits, if the index has a slot and the data is smaller than the size less the index. |
| Image.NewTakesAFile | hypnoticfs-tools/hypnoticfs-add.c:89-247 | With a slot and such data, adding "/a" to a new image succeeds, and the image then holds that file and nothing else. |
| HostTools.ImageFile.constructor | hypnoticfs-tools/hypnoticfs-new.c:56-68 | The image has the size asked for, or that of its header if that is larger: the magic number, the index size, and zeros in every byte behind the header. |
| HostTools.ImageFile.ReadHeader | hypnoticfs-tools/hypnoticfs-add.c:66-86 | Accepts exactly images with the magic number and an index no larger than the image. |
| HostTools.ImageFile.FindName | hypnoticfs-tools/hypnoticfs-add.c:136-150 | The first slot with the name in the directory. |
| HostTools.ImageFile.FindEmpty | hypnoticfs-tools/hypnoticfs-add.c:156-170 | The first empty slot. |
| HostTools.ImageFile.CheckOverlap | hypnoticfs-tools/common.c:145-171 | True exactly if some entry's extent overlaps or touches the range. |
| HostTools.ImageFile.FindOffset | hypnoticfs-tools/hypnoticfs-add.c:187-213 | The start of the data if it is free, else behind the first entry that leaves room. |
| HostTools.ImageFile.FollowNames | hypnoticfs-tools/hypnoticfs-add.c:98-127 | The loop over names computes the directory they lead to. |
| HostTools.ImageFile.FindPlace | hypnoticfs-tools/hypnoticfs-mkdir.c:53-157 | The checks in the source's order, with the error of the first that fails. |
| HostTools.ImageFile.CopyData | hypnoticfs-tools/hypnoticfs-add.c:217-234 | The loop over 1024-byte buffers writes the whole file at the offset. |
| HostTools.ImageFile.MakeDirectory | hypnoticfs-tools/hypnoticfs-mkdir.c:26-180 | Writes one directory entry, or leaves the image unchanged and reports the error. |
| HostTools.ImageFile.AddFile | hypnoticfs-tools/hypnoticfs-add.c:26-255 | Writes the data and one entry, or leaves the image unchanged and reports the error. |
| KernelReader.StorageRead | src/devices/storage/memory-disk/read.c:25-41 | Fails exactly past the end of the disk; otherwise as many bytes as asked for, each the one at its place. |
| Format.SlotMet | src/fs/hypnoticfs/hypnoticfs.c:69-79 | On any disk, going from slot to slot until the index or the disk ends meets exactly the entries that lookup is stated for. |
| KernelReader.GetIndexSize | src/fs/hypnoticfs/hypnoticfs.c:32-41 | The index size, or 0 on a disk too short to hold it. |
| KernelReader.GetIndex | src/fs/hypnoticfs/hypnoticfs.c:50-137 | The entry that the names lead to and its offset, or 0 exactly if there is none. |
| KernelReader.Read | src/fs/hypnoticfs/read.c:25-51 | Fills the buffer with the file's first bytes and touches nothing behind the size asked for. |
| KernelReader.List | src/fs/hypnoticfs/list.c:32-87 | The entries of the directory as the loop meets them, or NULL exactly for anything else. |
| KernelFs.ReadGivesContents | src/fs/hypnoticfs/read.c:25-51 | Reading a path of the tree gives the first bytes of exactly that file, and nothing for any other path. |
| KernelFs.ListIsChildren | src/fs/hypnoticfs/list.c:58-81 | The loop's early end at an empty entry skips nothing, since used slots come first. |
| KernelFs.ListingExact | src/fs/hypnoticfs/list.c:32-87 | With names shorter than 32 bytes, a directory's listing holds exactly its names, each once, in slot order, with their type and size; nothing else is listed. |
| KernelFs.UnpadPad | src/fs/hypnoticfs/hypnoticfs.c:547-548 | Copying up to the first zero gives back the name that was padded. |
| EndToEnd.HistoryRepresents | hypnoticfs-tools/hypnoticfs-add.c:89-252 | After any runs of the tools the image is well formed and holds exactly what the successful ones added. |
| EndToEnd.GrownKeeps | hypnoticfs-tools/hypnoticfs-add.c:131-151 | Nothing that was added is ever replaced or lost. |
| EndToEnd.AddedIsRead | src/fs/hypnoticfs/read.c:25-51 | Starting from a new image, every file added is read back by the kernel with exactly its bytes, whatever the tools did before and after: always by its consolidated path, and by the path given exactly if that has at most 1000 characters or the file is empty. |
| EndToEnd.FoundIffAdded | src/fs/hypnoticfs/hypnoticfs.c:50-137 | The kernel's lookup finds exactly the paths that were added. |

## Findings

Where the code does not do what one would expect, the exact condition is proved
instead. A frame becomes *loose* when a call maps it at a page of the user that it was not
handed out for, or at a page of the kernel although it lies in no allocation or
was handed out (`ProcessMemory.IsTight`, `MapExclusiveIff`, `StepAdds`), and in no
other way over any run (`DoAll`). Three places in the source map such frames.

- The last page of a stack (src/dispatcher/new.c:29-43) is its own exactly for sizes at least 2048 bytes over a multiple of 4096 (`LastPageOwnIff`); every launch asks for 4096. Otherwise its frame can be handed out for any other page (`StackThenPage`, with a concrete case in `SharedStackPage`); and in a process with no tables near its stack it is the process's own page table exactly if the page behind the stack's memory was free (`LaunchStack`).
- The page behind each task stack (src/memory/paging.c:96-101): a task stack is two whole pages, so one page behind it is mapped in every process, and loose unless it is part of another allocation (`PagesHeldIff`, `KernelTightIff`). The page behind a task segment is held, because a segment is allocated with one page more than it needs (src/boot/tss-new.c:82-83).
- The page behind the kernel (src/memory/paging.c:76-86): the same, when the kernel ends on a page boundary; when it ends inside a page that page is partly the kernel's own and cannot be granted (`KernelTightIff`).
- After a request for 0 bytes the address stays free (`AddressStaysFreeIffEmpty`), so that resizing an empty block can release the new block in place of the old (`ReplacesIff`, `EmptyBlockStays`, `EmptyBlockIsLost`).
- Likewise, a page asked for at a refused address is given back by its address: what is released is the first slot there, which is that page unless an empty allocation starts at the same address (`GivenBack`).
- Changing the flags of a large page so that its mark is lost unmaps it (`FlagsChanged`, `ReflagsIff`, `ClearingTheMarkUnmaps`).
- A processor can idle beside a process that could run, when an exiting process is removed behind all that ran in this cycle (`IdleWhileRunnable`, `IdlesBesideRunnable`).
- The tools accept paths of more than 1000 characters that the kernel refuses, so that a file can be added by a path it cannot be read by (`AddedIsRead`).
- A read from anything but the keyboard stops the kernel when the scan gets to it (`TimerHaltsExactly`).
- The pid search does not end when all pids are in use (`HungExactly`).
- A second ".." in a row takes nothing back from a path (`ConsolidateResolvesIff`, `TwoUpsKeepAName`).

## Left out

- Integers are unbounded: physical addresses, allocation sizes and the dispatch cycle do not wrap; tick counts, deadlines and pids do, as in the source. Images stay below 2^62 bytes in the results about the tools.
- Virtual addresses lie below 2^48, because the top index is not masked in the source; flags fit the low twelve bits, and those of process pages contain PRESENT and not the bit that marks large pages.
- A page-table or bookkeeping allocation that fails is written through as NULL by the source. The model stops there (`NullTable`, `NullMemory`, `Fault`). It says exactly when that happens and which requests were made up to then, and nothing about the tables of address spaces, the index or the bytes afterwards.
- Memory.Allocator.CreateTable: the list node the source writes is an element of `tables`, and table entries are the sequence `slots`; neither is part of the bytes of memory. Page tables are the map `tables` of their own class.
- That a whole allocation lies inside its memory block: the search checks only the start address.
- Memory.Allocator.Realloc: well-formed tables are not promised when the block released starts at a table's own address, and nothing when the request fails, which the source writes through as NULL.
- Memory.Allocator.constructor: takes the ranges recorded at boot as given; parsing the multiboot memory map is not modelled.
- ProcessMemory.AddressSpaces.Map: the index entry is appended before the page is set, as in the source; the arrays that hold the index are values, and the allocations made for them are not modelled. Results about the next page granted (`LaunchStack`, `StackThenPage`) are told as if those took none of it.
- ProcessMemory.AddressSpaces.NewProcess: without init data, arguments, name and working directory (`DispatcherProcessLoadAt`, `AddInitData`); the stack is `SetUpStack`, without the saved rsp and rbp.
- Processes are records in a sequence, not separately allocated objects; the memory of a removed process is not modelled, and neither is its release, which the source leaves to do.
- Dispatching.Dispatcher.NewPid: stated for tables with a pid left, because otherwise the source loops for ever; `HungExactly` says when.
- Scheduler.ScanSettles: which reads complete, and with what result, is given as input; the keyboard buffer and the bytes read are not modelled.
- `rflags` is saved but never restored by the source, so nothing is said about it; the I/O permission bitmap, of which all processors share one, is left out.
- Locked open files (`DispatcherIndexLockCheck`) and everything the removal of a process does beyond the table.
- Fairness.BoundedWaiting: counts timer interrupts of runs that do not halt; it says nothing about how often interrupts arrive.
- Memory of C strings in the image tools: segments longer than their 33-byte buffers are read as they are, and refused where the source refuses long names.
- hypnoticfs-new's index size of one twentieth of the image is an input, because it is computed in floating point.
- Messages of the tools are kept apart only where the source's checks are apart; which directory was missing is not reported.
- Reading at a nonzero offset, and the kernel's own writing to HypnoticFS (`FindSpace`, `Resize`, `NewIndex`, `Write`), whose overlap test is made at one point only.
- The kernel's mount-time recognition of a file system; its functions are stated for every disk, including ones whose index ends early.
- KernelFs.ListingExact: for names shorter than 32 bytes, because a name that fills its field has no terminator and the source copies past it.
- The heap of user processes (`malloc`, `free`, `realloc` of the user library), whose split test is inverted.
- Keyboard decoding, video, PCI, ACPI, APIC set-up, interrupt gates, boot code, ELF loading, console and ls.
