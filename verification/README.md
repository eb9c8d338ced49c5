# The virtual-memory core, modelled and proved

This project models the memory management of the loader: `PageTable`, two-level ARM page tables in which address ranges
are first reserved and then committed; `PageAlloc`, the reference-counted next-fit allocator of physical pages beneath
them; `load_elf`, which drives both; and the spinlocks that guard them. It proves what each operation does, and what
every run keeps.

How the modules fit together:

- **Words and descriptors.** `Bits` defines the bit operations of the source on natural numbers and proves what every
  mask of the source extracts. `Descriptors` decodes the words of first- and second-level tables into datatypes.
- **The flat page map.** `AddressSpace` gives a table as a value, `Table`, and its meaning: `At(t, v)` is the state of
  page `v`, which is `Free`, `Reserved(granularity)` or `Committed(frame)`. `References` counts the references a table
  holds on each frame. `Memory` and `TableMemory` say how words of physical memory hold a table.
- **The classes.** `PageAllocator.PageAlloc` and `PageTables.PageTable` are the source's classes, with its loops and its
  writes in place: one array of counts, one array of physical memory whose rows are frames, and page tables stored in
  that memory. The ghost field `tab` is the table that the words in memory stand for, and every method is proved against
  functions of it. `Frames`, `Reservation`, `Leasing`, `Allocation`, `Mapping` and `Release` hold those specifications.
- **What an operation may do.** `Evolution.Evolves` relates the machine before and after an operation of one table:
  every count moves with the table's own references, pages only move forward, new table pages come from free frames,
  and memory changes only in the table's own pages and in frames that were free. `OnlyFreshFrames` adds that no frame in
  use gets another reference, and `FreshCommits` that pages are committed to memory that was free only.
- **Many tables, many threads.** `World` is the machine with any number of live tables on one allocator, as a step
  system; `Kernel.Machine` has the table objects themselves and logs its own history: each of its methods adds a step, and
  its validity says that the log is a run of the world that ends at the present state. `Calls` gathers what each call on a
  table does. `Threads` interleaves the separately locked halves of `reserve_allocate`. `Locks` is the locking protocol for any
  number of threads. `ElfImage`, `ElfPlan`, `ElfMeaning`, `Bytes`, `Copying` and `ElfLoader` are the loader; `ElfPlan` tells from
  the state before a load whether it will be refused or run out of memory, and `ElfMeaning` says in the numbers of the ELF
  format what the loader accepts, copies and leaves.

A panic ends the machine. It is a result, `Panicked(code)`, and the contract of every operation of the source decides from
the state before whether it occurs and with which code; nothing is promised about the state after one.

Code and comments disagree in two places, and the model follows the code. The comment on `alloc` lists the sizes 1, 4 and
256 (src/page_alloc.cc:47), and the code also accepts 4096. `map` is marked as needing cleanup after a partial failure
(src/pagetable.cc:196): on a table that counts references a map that stops part-way leaves mappings that no count covers,
and so does one of an unaligned physical address, which the mapping rounds down and the references do not.
`Mapping.PartialMapBreaks` is a map of the first kind, and `Mapping.MapBooks` says exactly when counts and mappings part.
A count that wraps from 255 to 0 breaks the allocator itself: `Frames.CountWraps` is such a state, and `RefAcquire`,
`RefAcquireRange` and `Map` say exactly when the allocator's invariant is lost.

## Model

| member | source | states |
|---|---|---|
| Bits.Masks | src/pagetable.cc:72-97 | every constant with which the source masks a word, as bitwise AND on binary digits, extracts the arithmetic field that the rest of the model uses |
| Descriptors.DescFields | src/pagetable.cc:319-352 | the tests on a first-level word tell its kind, the base masks give its frame, and the fourth encoding 0b11 never occurs |
| Descriptors.EntryFields | src/pagetable.cc:367-375 | the tests on a second-level word tell free, reserved and committed apart, and the page mask gives back the frame |
| Descriptors.WordsAreOrs | src/pagetable.cc:266-312 | the words stored are the bitwise ORs of address and tag bits that the source writes |
| Descriptors.WordsInNumbers | src/pagetable.cc:255-317 | the words in plain numbers: 0 for free, 4 for reserved, and 4096 times the frame plus 1, 2 or 262146 for a second-level table, a section or page, and a supersection |
| AddressSpace.CommitAt | src/pagetable.cc:255-317 | committing one unit, at any granularity, sets exactly the pages of that unit to consecutive frames and leaves the state of every other page alone |
| AddressSpace.CommitRunAt | src/pagetable.cc:160-191 | committing a run of units changes exactly the pages of the range, each to its own frame of its own block, and no other page |
| AddressSpace.CommittableSuper | src/pagetable.cc:306-310 | a supersection can be committed exactly when all its 4096 pages are reserved by section, which is when its sixteen descriptors are |
| References.TableFrameReferenced | src/pagetable.cc:26-64 | a table holds a reference on each frame that holds part of it |
| References.MappedReferenced | src/pagetable.cc:82-102 | a table that counts references holds one on every frame that some page of it is committed to |
| References.MappedTwice | src/pagetable.cc:82-102 | two pages committed to one frame are two references on it |
| References.MappedTableFrame | src/pagetable.cc:82-109 | a frame that a table both maps and is stored in has two of its references |
| References.CommitRefs | src/pagetable.cc:255-317 | committing a reserved unit adds one reference on each frame of its block and none elsewhere; the sixteen slices of a supersection add up to the whole |
| References.CommitRunRefs | src/pagetable.cc:160-191 | the same for a run of units on any blocks, however they overlap |
| PageAllocator.PageAlloc.constructor | src/page_alloc.cc:7-31 | everything up to the end of the count table is in use, the rest is free, and the allocator's invariant holds |
| PageAllocator.PageAlloc.GetMemStats | src/page_alloc.cc:33-43 | used memory is the number of frames with a nonzero count, and used plus free is total |
| Frames.ScanExact | src/page_alloc.cc:69-100 | the scan returns the first wholly free block in ring order from where it starts, and nothing exactly when none of the blocks before the one just behind the cursor is free |
| Frames.AllocFacts | src/page_alloc.cc:46-111 | an allocation keeps the allocator's invariant; the block is in range, aligned to its size, not at frame 0, was wholly free, and its counts are all that change |
| Frames.AllocIsNextFit | src/page_alloc.cc:65-100 | the specification of the scan against an independent one, by remainders on the ring: the block granted is the first free one at or after the cursor of its size, and there is none exactly if no block before the last of the ring is free |
| Frames.CursorMoves | src/page_alloc.cc:91-102 | the cursor of the size asked for, by name, ends just past the block granted, at 0 past the end of memory, and the other three do not move |
| PageAllocator.PageAlloc.FindBlock | src/page_alloc.cc:67-100 | the do/while scan with its test against the cursor after a success: out of memory only if the specification finds no block, else exactly its block is taken |
| PageAllocator.PageAlloc.Alloc | src/page_alloc.cc:46-111 | panics exactly on a size other than 1, 4, 256 and 4096 or when no block is free; otherwise the block is the next fit from next1, next4, next256 or next4096, that field and no other moves just past it, its counts become 1 and no other changes, every word of its first frame is 0xcccccccc and no other word is written, and the invariant holds |
| PageAllocator.PageAlloc.RefAcquire | src/page_alloc.cc:113-139 | no effect past the end of memory, a panic exactly on a free frame, else one more; the invariant survives exactly if the count was not 255 |
| PageAllocator.PageAlloc.RefRelease | src/page_alloc.cc:141-171 | no effect past the end of memory, a panic exactly on a free frame, else one less, with the frames in use still counted right |
| PageAllocator.PageAlloc.RefAcquireRange | src/page_alloc.cc:173-177 | panics exactly if some frame of the range that is in memory is free; otherwise each of them and no other has one more, and the invariant survives exactly if none was at 255 |
| PageAllocator.PageAlloc.RefReleaseRange | src/page_alloc.cc:179-183 | panics exactly if some frame of the range that is in memory is free; otherwise each of them and no other has one less, and the invariant survives exactly if frame 0 is not freed |
| Frames.NonZeroSet | src/page_alloc.cc:89-90 | changing one count moves the number of frames in use by one exactly when the count becomes zero or stops being zero |
| Frames.BumpedKeeps | src/page_alloc.cc:126 | the frames in use are still counted right after a run of new references exactly if no 8-bit count wraps |
| Frames.CountWraps | src/page_alloc.cc:126 | a valid allocator with a count of 255 that one more reference breaks: the frame counts as free |
| PageTables.PageTable.Create | src/pagetable.cc:26-54 | panics exactly when no aligned four-frame block is found; otherwise the table is in those four frames, counts references as asked, has exactly the pages below 0x100000 for a supervisor and below 0x80000 for a user, all free, and no memory beyond the four or two frames of its descriptors is written |
| PageTables.NewTableFree | src/pagetable.cc:33-43 | a supervisor table has 0x100000 pages and a user table 0x80000, each of them free |
| PageTables.PageTable.CreateSecondLevelTable | src/pagetable.cc:56-64 | one granted frame whose first 256 words are free entries, with all other memory as it was |
| PageTables.PageTable.Split | src/pagetable.cc:394-399 | a free section becomes a second-level table of free pages: every page keeps its state |
| PageTables.PageTable.GetPageDescriptor | src/pagetable.cc:319-336 | finds the entry of the page exactly if its section is in range and split |
| PageTables.PageTable.GetSectionDescriptor | src/pagetable.cc:338-352 | finds the descriptor exactly if the section is in range and, where asked for, not split |
| PageTables.PageTable.CheckSectionPartiallyReservable | src/pagetable.cc:512-533 | true exactly if all the given pages of one section are in the table and Free in the flat map |
| PageTables.PageTable.ReservePagesFromSection | src/pagetable.cc:535-556 | the given pages become reserved and no other page changes, whether or not the section had to be split first |
| PageTables.PageTable.CheckPages | src/pagetable.cc:479-493 | the loop over sections decides exactly whether the whole range is in the table and free |
| PageTables.PageTable.MarkCheckedPages | src/pagetable.cc:495-507 | the second loop reserves the whole checked range although it splits sections on the way, and panics exactly when the second-level tables it needs cannot all be allocated |
| Reservation.TablesNext | src/pagetable.cc:495-507 | one more section of a page reservation: the second-level tables made so far are in the frames granted, in the order of their sections |
| PageTables.PageTable.ReservePagesAt | src/pagetable.cc:476-510 | all or nothing: it fails, with nothing changed, exactly when some page of the range is out of the table or not free |
| PageTables.PageTable.ReserveSectionsAt | src/pagetable.cc:558-574 | reserves exactly the given sections, or fails with nothing changed exactly when one is out of range or not free |
| PageTables.PageTable.ReserveSupersectionsAt | src/pagetable.cc:576-592 | the same for sixteen sections at a time |
| PageTables.PageTable.ReserveSections | src/pagetable.cc:413-440 | exact first fit: the lowest window of free sections, and a failure exactly when there is none |
| PageTables.PageTable.ReserveSupersections | src/pagetable.cc:442-474 | exact first fit over aligned groups of sixteen free sections |
| PageTables.PageTable.ReserveInTables | src/pagetable.cc:357-388 | the lowest window of free pages in the first second-level table that has one, and a failure exactly when none has |
| PageTables.PageTable.ReservePages | src/pagetable.cc:354-411 | that window, else the start of the first free section, else failure, with the one allocation this takes |
| Leasing.ReserveFailsIffNoRoom | src/pagetable.cc:112-125 | an unplaced reservation fails exactly when there is no room for it anywhere, and then nothing has changed |
| Leasing.ReserveAtLeases | src/pagetable.cc:127-140 | every successful placed reservation leases exactly the units asked for: they were free, they are reserved at their granularity, no other page changes |
| Leasing.ReserveLeases | src/pagetable.cc:112-125 | so does every successful unplaced one, at the aligned address it returns |
| Leasing.ReserveIsLowest | src/pagetable.cc:112-125 | the address is the lowest at which the units fit: of the first window of free sections, of the first free aligned groups of sixteen, or, for pages, of the first window in the first second-level table that has one, else the start of the first free section |
| Leasing.PlacedPanics | src/pagetable.cc:127-140 | a placed reservation panics exactly when it is possible and the frames for its second-level tables cannot be had |
| Leasing.UnplacedPanics | src/pagetable.cc:112-125 | an unplaced one panics exactly when only a new second-level table would do and there is no frame for it |
| PageTables.PageTable.Reserve | src/pagetable.cc:112-125 | the first-fit outcome for each granularity, as an evolution of the machine |
| PageTables.PageTable.ReserveAt | src/pagetable.cc:127-140 | the all-or-nothing outcome for each granularity, as an evolution of the machine |
| PageTables.PageTable.CommitPage | src/pagetable.cc:255-271 | succeeds exactly if the page is reserved by page, and then changes that page alone in the flat map |
| PageTables.PageTable.CommitSection | src/pagetable.cc:273-289 | succeeds exactly if all pages of the section are reserved by section, and then commits just these |
| PageTables.PageTable.CommitSupersection | src/pagetable.cc:291-317 | succeeds exactly if all sixteen sections are reserved, and otherwise writes nothing |
| PageTables.PageTable.Allocate | src/pagetable.cc:142-194 | panics at once without counting; otherwise commits the leading committable units to next-fit blocks, gives the last block back if a unit fails, and panics exactly when one of those allocations does; counts stay exact even when it fails part-way; the first frames of the blocks taken are left full of 0xcc, and no other memory but the table's own pages is written |
| Allocation.RunIsChain | src/page_alloc.cc:46-111 | a run of allocations is a chain of single ones, each from the state that the one before left, in order; it fails exactly if one of them does |
| Allocation.RunFresh | src/pagetable.cc:160-191 | the blocks of one allocation were all wholly free before it, are aligned and do not overlap |
| Allocation.LeaseAllocates | src/pagetable.cc:231-253 | allocating for a range that was leased before panics exactly if that many blocks in a row cannot be granted, and otherwise backs unit k with the (k+1)-th block granted; each was free |
| Allocation.AllocateCommitsFresh | src/pagetable.cc:143-194 | allocate commits pages to frames of memory that were free only, even when it fails part-way |
| PageTables.PageTable.ReserveAllocateAt | src/pagetable.cc:243-253 | fails exactly when its reserving half fails, with nothing changed; panics exactly when the second-level tables or then the blocks cannot be granted, or the table does not count; on success byte o of unit k translates to byte o of the (k+1)-th block that the allocator grants after the second-level tables, each block was free and starts with a frame full of 0xcc, and no other page and no other memory changes |
| PageTables.PageTable.ReserveAllocate | src/pagetable.cc:231-241 | the same for an address that it chooses: the lowest at which the units fit, with a failure exactly when there is none, and with the matching panics |
| PageTables.PageTable.Map | src/pagetable.cc:196-229 | maps the leading committable units, takes references only if that is all of them, panics exactly when a frame to be referenced is free, keeps the allocator's invariant exactly if no count wraps, and keeps the books in exactly the cases of Mapping.MapBooks |
| Mapping.MapBooks | src/pagetable.cc:196-229 | a map leaves every count in step with the mappings if and only if the table does not count, or nothing was mapped in memory, or all units were mapped from an aligned address and no count was at 255 |
| Mapping.PartialMapBreaks | src/pagetable.cc:200-226 | a concrete map of two sections of which one is reserved: it fails and leaves a mapping without a reference |
| Translation.MapSucceeds | src/pagetable.cc:197-229 | after a map that succeeds every byte offset of the range translates to the same offset of the physical range, from where its first unit starts, and every other address translates as before |
| Translation.BackedTranslates | src/pagetable.cc:160-191 | after units have been allocated, every byte of each translates to the same byte of its own block, in the order of the units |
| PageTables.PageTable.VirtualToPhysical | src/pagetable.cc:594-654 | reading the words in memory gives the translation of the flat page map |
| Translation.WalkEqualsTranslate | src/pagetable.cc:594-654 | that translation is the hardware's own walk of the words, specified from section B3.5.1 of the ARM Architecture Reference Manual DDI 0406C, with reserved markers as faults and no large page |
| Translation.SuperMapsIff | src/pagetable.cc:687-693 | comparing the 16 MiB base of one bit-18 descriptor decides whether any page maps the address, because supersections occur only in whole groups |
| PageTables.PageTable.PhysicalToVirtual | src/pagetable.cc:656-710 | succeeds exactly when some virtual address translates to the given physical address |
| PageTables.PageTable.GetUnitState | src/pagetable.cc:730-798 | for a page the flat map's state; for a section its state, failing exactly if out of range or split; for a supersection the state common to all sixteen sections, failing exactly if there is none |
| Translation.UnitStateReads | src/pagetable.cc:720-798 | the answers one by one: Free, Reserved and Committed exactly if the page is so in the flat map; for a section exactly if it is in range and unsplit, and then as all of its pages are; for a supersection exactly if all sixteen descriptors are free, are reserved, or map sections or supersections |
| PageTables.PageTable.Destroy | src/pagetable.cc:66-110 | every count goes down by exactly the references the table held, supersections as sixteen slices, and the allocator's invariant holds |
| Evolution.EvolvesTrans | src/pagetable.cc:112-317 | what every operation keeps, every sequence of operations keeps |
| World.StepKeeps | src/pagetable.cc:26-253 | reference accounting, coherence of all tables and separation of their pages survive every operation, construction, destruction and outside allocation |
| World.RunKeeps | src/pagetable.cc:26-253 | in every state of every run each count is the outside references plus those of all live tables, which are all intact in memory and share no page |
| World.LifecycleConserves | src/pagetable_tests.cc:256-263 | making tables, using them in any way that keeps the books and destroying them restores every count and the number of frames in use, even with frames shared with other tables |
| World.TableReleasable | src/pagetable.cc:66-110 | in every reachable state every live table can be destroyed without a panic while the boot code holds frame 0 |
| World.UnsharedRunExclusive | src/pagetable.cc:160-191 | in runs that reference only free frames, maps by tables that do not count among them, no frame ever has two references |
| World.AllocateRunIsolated | src/pagetable.cc:160-191 | in every state of every run that commits only through allocate, translation is injective over all addresses of all live tables, and no address translates into a frame that holds part of any live table |
| World.UnsharedSelfIsolated | src/pagetable.cc:56-64 | while no frame has two references, a store through a counting table never changes that table |
| World.RunForward | src/pagetable.cc:255-317 | over any part of any run each page of a live table moves only from Free to Reserved to Committed |
| World.TranslationStable | src/pagetable.cc:594-654 | an address that translates keeps its translation for as long as its table lives |
| World.OutsideAllocates | src/loader_main.cc:65-70 | a block that the boot code allocates for itself keeps the world's invariant and shares no frame |
| Kernel.Machine.Do | src/pagetable.cc:112-229 | any call of reserve, allocate or map on one of many table objects that share an allocator has its full effect and its exact panic, extends the machine's run by a step, leaves every other table valid, and commits fresh memory only unless it is a map |
| Calls.CallPanics | src/pagetable.cc:112-229 | whether and how each of these calls panics is a function of the state before |
| Kernel.Machine.New | src/pagetable.cc:26-54 | constructing a table panics exactly when no four-frame block can be granted, and otherwise extends the run with an empty table of 0x100000 or 0x80000 free pages |
| Kernel.Machine.Delete | src/pagetable.cc:66-110 | destroying one extends the run and takes exactly its references back |
| Kernel.Machine.Load | src/elf_loader.cc:59-125 | loading a sound image extends the run as an operation that commits fresh memory only, with the load's exact refusals and panics, leaves every section in place, and leaves 0xcc in the other bytes of the segments and all other memory as it was |
| Kernel.Machine.AllocateOutside | src/loader_main.cc:65-70 | allocating a stack panics exactly when no block can be granted, and otherwise extends the run, sharing no frame, with the block's references held outside |
| Kernel.Machine.ReachesApart | src/pagetable.cc:160-191 | a machine that has committed only through allocate never reaches one byte by two addresses, nor a page of any table |
| Kernel.Machine.NothingLeaks | src/pagetable_tests.cc:256-263 | a machine all of whose tables have been deleted, and for which nothing else has been allocated, has every count, and the number of frames in use, as at the start |
| Threads.LeasesAreSafe | src/pagetable.cc:231-253 | under every interleaving of the separately locked halves, no two threads hold a page in common, and no allocating half fails |
| Threads.AllocationSucceeds | src/pagetable.cc:143-194 | allocating for one's own reservation commits all of it, whatever other threads have done since |
| Threads.ReserveAtIsStep | src/pagetable.cc:127-140 | the reserving half as the table performs it is a step of that system, and holds the range at the address that the allocating half is called with |
| Threads.ReserveIsStep | src/pagetable.cc:112-125 | and so is the unplaced one |
| Threads.AllocateIsStep | src/pagetable.cc:143-194 | and the allocating half |
| Locks.LocksExclude | src/spinlock.cc:6-15 | in every state of every run at most one thread is inside each lock's section, and the allocator's data is good whenever its flag is clear |
| Locks.NoDeadlock | src/spinlock.cc:10-15 | with tables locked before the allocator, whenever some thread is not idle some thread can take a step that is not a spin |
| Locks.AllocPlanOk | src/page_alloc.cc:67-102 | the single writes of alloc, which break the invariant in between, restore it by the time the lock is released and add up to the next-fit specification |
| Locks.CountPlanOk | src/page_alloc.cc:113-171 | the same for ref_acquire and ref_release |
| ElfImage.SegmentLoaded | src/elf_loader.cc:81-94 | one more segment backed by fresh frames: all segments so far are disjoint, and all their pages were free at the start and are on distinct frames that were free too |
| ElfPlan.FitsIffPlaceable | src/elf_loader.cc:82-93 | a segment can be reserved after the ones before it exactly if its pages were in range and free at the start and none of them belongs to an earlier segment |
| ElfPlan.NextPanics | src/elf_loader.cc:87-93 | whether the next segment panics, told from the state before the load: all frames so far, its second-level tables that no earlier segment has made, and its pages |
| ElfPlan.CountedLoadPanics | src/elf_loader.cc:78-95 | on a counting table an image whose segments fit panics exactly when the allocator cannot grant, in a row, one frame for each page and one for each free section that the segments touch |
| ElfPlan.OrderNext | src/elf_loader.cc:78-95 | one more segment: its page k is on the grant, counted from the start of the load, that follows those of all pages before it and of all second-level tables made so far, and the pages of earlier segments stay on theirs |
| ElfPlan.FilledNext | src/elf_loader.cc:78-95 | after the segments so far their frames are full of 0xcc, and all other memory but the table's own pages is as before the load |
| ElfMeaning.HeadersInNumbers | src/elf_loader.cc:62-74 | headers are accepted exactly with program headers of 32 bytes, section headers of 40 bytes, and a section count other than 65535 |
| ElfMeaning.SegmentInNumbers | src/elf_loader.cc:81-87 | a page belongs to an aligned segment exactly if the segment is of type 1 and has a byte in it |
| ElfMeaning.PagesInNumbers | src/pagetable.cc:990-1001 | a segment of type 1 takes as many pages as its bytes, rounded up, and any other none |
| ElfMeaning.FitInNumbers | src/elf_loader.cc:78-95 | all segments fit exactly if those of type 1 are page-aligned and every page in which one has a byte is in the table, free, and without a byte of an earlier one |
| Copying.CopyBytesRight | src/utility.cc:22-29 | a byte-wise copy through a table puts the source bytes at the translated destination and changes no other byte |
| Copying.MappedKeepsTable | src/elf_loader.cc:117 | stores through a table that does not map its own pages leave it intact in memory |
| ElfImage.CopySectionsRight | src/elf_loader.cc:97-120 | after all copies every section is in place, and bytes that no section covers are unchanged |
| ElfImage.LoadedInPlace | src/elf_loader.cc:78-120 | if the sections are disjoint and lie in the segments, and the image lies in frames in use, no copy aborts and reading sh_addr + k through the table gives image byte sh_offset + k |
| ElfImage.LoadConfined | src/elf_loader.cc:59-125 | loading such an image writes only to the table's own pages and to memory that was free |
| ElfMeaning.SectionInNumbers | src/elf_loader.cc:102-107 | a section is copied exactly if its type is 1 and bit 1 of its flags is set |
| ElfMeaning.SoundInNumbers | src/elf_loader.cc:97-120 | what is asked of an image, in its header fields: each address of a section to be copied is in a segment, none is in two such sections, and the bytes to be copied are in frames in use that are no pages of the table |
| ElfMeaning.ByteInNumbers | src/elf_loader.cc:105-117 | a byte is in place exactly if the byte of memory at the translation of its address, least significant byte of a word first, is that of the image |
| ElfMeaning.RestIsLeft | src/elf_loader.cc:97-120 | after a load, bytes of the segments' frames that no copied section has are 0xcc, and all other bytes outside the table's pages are as before the load |
| ElfLoader.LoadSegments | src/elf_loader.cc:78-95 | the segment loop loads all segments exactly if all fit, stops otherwise, and panics exactly as predicted from the state before |
| ElfLoader.CopyAllSections | src/elf_loader.cc:97-120 | the section loop, byte by byte through the table's own words, is the copy of all sections, and keeps the table intact |
| ElfLoader.LoadElf | src/elf_loader.cc:59-125 | absent a panic, refuses an image exactly if its headers are wrong or some segment is unaligned, has a page out of range or not free, or meets an earlier one, and then the segments before that one are loaded; panics exactly as predicted from the state before; otherwise each page of the segments is on its own grant, in order, the entry point is returned, and for a sound image every byte of each section of type 1 with bit 1 of its flags set is at its translated address, the other bytes of the segments' frames are 0xcc, and no other memory but the table's pages has changed |

## Left out

Not modelled, because it is display, hardware or unfinished:

- the UART, all printing and `print_table_info`; boot tags (src/atags.cc); the boot and interrupt assembly and mode stacks.
- `PagingManager`'s register writes, cache and TLB control. Only the mask on the table base is modelled. The fast form of `virtual_to_physical` that is commented out is not part of this model.
- src/kmalloc.cc, which is unfinished and not built.
- the bodies of `panic` and the printing done on the way to it.

What the model abstracts from:

- The count table is an array of its own, not bytes of the modelled memory. The four static ring cursors of `alloc`, which the source shares between all allocators, are fields of the one allocator.
- An image's header fields and its two header arrays are values. Their byte layout, and the check that the arrays lie in memory, are not modelled.
- ElfLoader.LoadElf: destinations are translated by the table being loaded, and the image is read at its physical address, as it is under the loader's identity mapping. The processor uses the loaded table only for addresses from 0x80000000 up (src/pagetable.cc:1014-1020); it would copy a section below that to the physical address equal to `sh_addr`, through the identity overlay, and what is said of copying does not hold for such a section. An access outside memory is a data abort.
- PageTables.PageTable.PhysicalToVirtual: gives only whether the lookup succeeds. The address that the source returns is built from descriptor bits and not from the loop's indices, so it is not the virtual address.
- Locks.AllocPlanOk: a thread reads the allocator's data and chooses its writes in the step that takes the lock, and then makes the writes one at a time. Weak memory ordering is not modelled: test-and-set and clear are single steps.
- Threads.AllocateIsStep: the frames granted are arbitrary, since other tables use the allocator between the halves.
- A few loops of the source are methods of their own here, such as `MarkEntries`, `WriteGroup` and `FindInTable`, and the `switch` on the granularity is `CommitUnit`.

What the source leaves to its callers, and the contracts therefore require:

- PageAllocator.PageAlloc.Alloc: the number of frames is a multiple of the block size. Otherwise the wrap of the ring loses alignment and range (src/page_alloc.cc:91-95).
- PageAllocator.PageAlloc.RefAcquire: the frame is not the one just past the end of memory, which the bounds test lets through (src/page_alloc.cc:121,149). The same is required wherever a range is acquired, released or mapped by a counting table.
- Kernel.Machine.Delete: the boot code keeps a reference on frame 0, because `alloc` reads address 0 as "not found" (src/page_alloc.cc:68,100).
- Kernel.Machine.Do: a map on a counting table keeps the books, in the sense of Mapping.MapBooks. PageTables.PageTable.Map itself does not require it.
- PageTables.PageTable.Map: the physical range is addressable.
- PageTables.PageTable.Reserve: at least one unit and, for pages, at most the 256 of one second-level table.
- PageTables.PageTable.ReserveAt: the units do not reach past the top of the address space. The same holds for allocate, map and the segments of an image.
