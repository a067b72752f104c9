# A verified model of a small ARMv8 kernel

The project models the memory, job and file-reading parts of a small AArch64 kernel in Dafny and
proves what they promise. `dafny verify dfyconfig.toml` checks all of it.

## What is modelled

- **Page tables** (`Bits`, `Descriptors`, `Walk`, `Trees`, `Mapping`, `Paging`). Memory is a map from
  word address to 64-bit word. The kernel builds descriptors with `&` and `|`, which are defined bit by
  bit; the hardware walk (`Walk.Translate`) is written from the descriptor layout of the Arm
  Architecture Reference Manual for A-profile (VMSAv8-64, 4 KB granule, 39-bit space) and shares nothing
  with the mapping code. Every table in use has one *place* (root, level, parent entry); the places are
  an invariant of every call, and the translations of all managers are proved equal to what replaying
  the log of calls says.
- **Address spaces** (`AddressSpaces`). Creating a job's paging: kernel gigabytes, then user pages from
  the frame slab, with the isolation of all spaces as the invariant; then the program is copied through
  the new translations, and no byte of another space changes.
- **Jobs and scheduler** (`Schedule`, `Jobs`). `Schedule` is a state machine over a sequence of jobs with
  the steps spawn, terminate and tick, and proves facts about whole runs. `Jobs` is the circular linked
  list in slab slots, with kalloc and kfree of paging managers on the heap below; each of its methods
  refines one step.
- **The whole** (`Kernel`, `Start`, `Programs`). Jobs and address spaces together: no two jobs reach the
  same frame, and no heap block is lost. `Start` builds such a system from a cleared heap table, with the
  kernel's own sizes; `Programs` shows that any list of at most 128 programs whose pages fit the user
  frames is then started, loaded and isolated.
- **Allocators** (`Slabs`, `Heaps`). The bitmap slab refines a set of live slots, the first-fit heap a
  map of live regions.
- **FAT16 reading** (`Disk`, `Fat`, `FatInodes`, `FatLoad`). Sector-straddling reads, cluster chains, the
  buffered inode and the layout arithmetic.
- **Byte and number routines** (`Fill`, `Numerals`). The word-wise memset and number printing.

## Domain

Preconditions state what the code relies on without checking it: a free slab slot (the loop at
`kernel/alloc/slab.c:78` cannot end otherwise) and enough table and frame slots (`kernel/mm/paging.c:200`,
`kernel/mp/job.c:175`); a heap block for every kalloc whose result is not tested, those of
`fat_read_entry_offset_size` (`kernel/fs/fat.c:206`) and of a paging manager included; a slab pointer in the
object area when freeing; a tag table that starts zero (`kernel/alloc/heap.c:13` clears only its first byte);
virtual addresses below 2^39; a table slab aligned to 4096 and below 0x80000000, where the heap is; slabs and
the heap below 2^31 bytes, where the 32-bit arithmetic is exact; areas below 2^31 bytes for `memset`, `memcpy`
and `strrev`, whose counters are ints (`Fill.IntsExact`, `Fill.LongFillExample`); at least one RUNNING job at
a tick (`kernel/mp/job.c:73` spins otherwise). `Paging.PageTables.InsertOrAlloc` asks for exactly the tables
that are missing on the way.

Of volumes and files: fewer than 2^31 sectors (`kernel/fs/fat.c:60` numbers them with an int); a cluster size
that is a positive multiple of 512; header products at `kernel/fs/fat.c:98` and `kernel/fs/fat.c:101` below
2^31, since they are computed as ints; a chain of ceil(size / cluster size) clusters; for `fat_read_entry` a
last cluster that starts below 2^31, which is exactly when its int counter gives every cluster its place
(`Fat.OffsetsExact`, `Fat.LongFiles`); for the inode a size below 2^31, since its position is an int; for
`fat_read_entry_offset_size` a range no longer than a cluster, since it writes past its scratch buffer
otherwise.

Where the code does not do what its comments or the standards say, the code is followed:

- On its domain `memset` is the byte fill of the C standard exactly if no byte of the argument, converted
  to `uint64_t`, has a bit outside its lowest byte, or if fewer than eight bytes are filled (`Fill.Memset`,
  `Fill.NotCoveredExample`).
- Word 31 of the exception frame, where `kernel/exceptions.asm:106` puts x1, is neither saved nor
  restored, although `include/mp/sched.h` speaks of 31 registers. The whole frame comes back exactly when
  that word happens to be the same (`Schedule.WholeFrameRestored`), and two jobs that take turns exchange it
  (`Schedule.TakingTurns`, `Schedule.Word31Lost`).
- `uint64_to_string` needs base 3 or more for its buffer to hold every number (`Numerals.FitsBuffer`,
  `Numerals.BinaryOverflows`).
- The data area starts where the Microsoft FAT specification says exactly if the root directory fills whole
  sectors (`FatLoad.DataOffsetAsSpecified`, `FatLoad.DataOffsetExample`).
- Of the end marks 0xfff8 to 0xffff that the same specification allows, `kernel/fs/fat.c:183` knows 0xffff
  only: a chain is seen as it is exactly if it ends in that mark (`Fat.StandardChainSeen`,
  `Fat.OtherEndMarkExample`).
- `fat_read_entry_offset_size` delivers a range exactly if it lies inside one cluster (`Fat.RangeArrives`,
  `Fat.RangeLost`). The inode makes no other calls (`FatInodes.FatInode.Refill`).
- `slab_align_to_object` returns bytes, not the number of objects that `include/slab.h` announces. The two
  agree exactly for objects of one byte and for no bytes, as long as the result fits its int
  (`Slabs.AlignToObjectIsCount`, `Slabs.AlignToObjectExample`).
- The heap of `kernel/start.c:45` reaches beyond 0x50000000, where `kernel/linker.ld:14` puts the code. A region
  stays below the code exactly if its last block number is below 0xfe80 (`Start.BelowImage`); the slabs do.

## Model

| member | source | states |
|---|---|---|
| Descriptors.MaskedAddress | include/paging.h:20-25 | the level masks keep exactly the output address field of a descriptor |
| Descriptors.PageEntryCorrect | kernel/mm/paging.c:45-60 | a built page descriptor is valid, accessed, has exactly the asked permissions and the frame of the address, for every 64-bit address |
| Descriptors.BlockEntryCorrect | kernel/mm/paging.c:11-36 | the same for level 1 and 2 block descriptors |
| Descriptors.TableEntryRoundTrip | kernel/mm/paging.c:38-43 | encoding and decoding a table address is the identity on aligned 48-bit addresses |
| Descriptors.EntryValues | kernel/mm/paging.c:11-60 | the built descriptors as numbers, for every address and permission pair |
| Descriptors.LowBits | kernel/mm/paging.c:245-248 | the tests on the two low bits read the valid and type bits |
| Paging.SplitAddress | kernel/mm/paging.c:142-162 | the split yields the architecture's three indices and offset, and they rebuild the address |
| Walk.SamePage | kernel/mm/paging.c:142-162 | a virtual page is determined by its three indices |
| Walk.IndexIsField | kernel/mm/paging.c:142-162 | the indices are bits 38 to 30, 29 to 21 and 20 to 12 of the address |
| Trees.OneParent | kernel/mm/paging.c:198-269 | over all managers, a table has at most one parent entry and no entry points to a root |
| Trees.EntryWritten | kernel/mm/paging.c:257-286 | words of different tables or entries never alias |
| Trees.WriteEntry | kernel/mm/paging.c:257-286 | writing an entry that respects the places keeps the forest |
| Trees.AddTable | kernel/mm/paging.c:198-207 | a cleared table with a place keeps the forest |
| Trees.SameWalk | kernel/mm/paging.c:209-289 | a walk that stays in untouched tables is unchanged |
| Trees.OtherEntry | kernel/mm/paging.c:236-268 | addresses that leave a table by another entry translate as before |
| Trees.OtherTree | kernel/mm/paging.c:209-289 | a change below one manager's table leaves every other manager's translations alone |
| Paging.PageTables.ClearTable | kernel/mm/paging.c:117-119 | all 512 entries of the table are zero and no word of another table changes |
| Paging.PageTables.AllocateTable | kernel/mm/paging.c:198-207 | a new table from the slab, cleared, in use by nobody else, and the forest kept |
| Paging.PageTables.InstallTable | kernel/mm/paging.c:248-257 | a cleared table linked behind one entry, nothing else changed |
| Paging.PageTables.InsertOrAlloc | kernel/mm/paging.c:209-289 | refused exactly on a conflict, atomic when refused, without effect when repeated; else the page alone is remapped and exactly the missing tables are consumed |
| Paging.PageTables.InsertLeaf | kernel/mm/paging.c:275-288 | the three cases of level 3 |
| Paging.PageTables.PutEntry | kernel/mm/paging.c:275-288 | equal entries are left alone, other valid ones refuse, invalid ones are overwritten |
| Mapping.OutcomeThroughTable | kernel/mm/paging.c:258-268 | the outcome at a child table is the outcome at its parent |
| Mapping.OutcomeThroughFresh | kernel/mm/paging.c:248-268 | the same when the child was just allocated, counting it |
| Mapping.LeafOutcome | kernel/mm/paging.c:275-288 | writing, keeping or refusing a level 3 entry has the promised outcome |
| Mapping.MappedIsUpdate | kernel/mm/paging.c:164-180 | a successful map is a one-page update of the translations of all managers |
| Mapping.ConflictIsTranslated | kernel/mm/paging.c:242-284 | a request is refused exactly when its page is translated already other than by the same descriptor |
| Mapping.BlockMapped | kernel/mm/paging.c:130-140 | mapping a gigabyte changes exactly that gigabyte of that manager |
| Mapping.FreshRoot | kernel/mm/paging.c:109-122 | a new manager translates nothing and disturbs nobody |
| Mapping.ReplaysInit | kernel/mm/paging.c:109-122 | all translations follow the run of calls when a manager is added |
| Mapping.ReplaysPage | kernel/mm/paging.c:209-289 | all translations follow the run of calls when a page is mapped |
| Mapping.ReplaysGigabyte | kernel/mm/paging.c:130-140 | all translations follow the run of calls when a gigabyte is mapped |
| Mapping.ReachedNeighbours | kernel/mm/paging.c:230-262 | once a page is mapped its 2 MB need no table and its gigabyte at most one |
| Paging.PageTables.ManagerInit | kernel/mm/paging.c:109-122 | a new empty level 1 table; all translations of all managers are those of the log of calls |
| Paging.PageTables.ManagerMapPage | kernel/mm/paging.c:164-180 | the outcome of the request, and the translations of all managers are those of the extended log |
| Paging.PageTables.ManagerMap1Gb | kernel/mm/paging.c:130-140 | the same for a gigabyte block |
| Paging.PageTables.ManagerMapKernel | kernel/mm/paging.c:124-128 | two identity-mapped privileged gigabytes in the log |
| AddressSpaces.NoSharedFrame | kernel/mp/job.c:174-180 | equal frames reached by unprivileged accesses mean the same space and the same page |
| AddressSpaces.KernelProtected | kernel/mp/job.c:159-161 | unprivileged accesses reach only addresses from 0x80000000 on; the kernel gigabytes are identity-mapped and privileged |
| AddressSpaces.NoSharedByte | kernel/mp/job.c:172-180 | a user byte is reached from one address of one space only, and never from kernel addresses |
| AddressSpaces.Spaces.TablesOutOfReach | kernel/mm/paging.c:291-298 | no unprivileged access of any space reaches a translation table |
| AddressSpaces.StoredByte | kernel/elf/filebuffer.c:21-27 | a store through one user address changes what is read there and nowhere else |
| AddressSpaces.CopyProgram | kernel/mp/job.c:210-211 | the program is at the start of the user area, and every byte of every other space is as before |
| AddressSpaces.KernelSpaceLog | kernel/mm/paging.c:124-128 | init and map_kernel give exactly the kernel gigabytes, and nothing to others |
| AddressSpaces.KernelSpaceMade | kernel/mp/job.c:159-161 | a new kernel space keeps the other translations and the isolation of all |
| AddressSpaces.FreshFrame | kernel/mp/job.c:175-178 | mapping an unused frame at an unmapped page keeps all spaces isolated |
| AddressSpaces.UserPageRound | kernel/mp/job.c:174-180 | the ignored result of the map call is success, with isolation kept and other spaces untouched |
| AddressSpaces.NextPageMissing | kernel/mp/job.c:174-180 | user pages need a new table only at 2 MB and 1 GB boundaries |
| AddressSpaces.PagesFor | kernel/mp/job.c:165-170 | the least number of pages that hold the bytes |
| AddressSpaces.Spaces.constructor | kernel/mp/job.c:102-109 | user frames start at 0x80000000 |
| AddressSpaces.Spaces.KernelSpace | kernel/start.c:52-58 | a space with the kernel only, others unchanged |
| AddressSpaces.Spaces.MapUserPage | kernel/mp/job.c:174-180 | one more user page, in a frame used by nobody |
| AddressSpaces.Spaces.CreatePaging | kernel/mp/job.c:155-183 | a new space with exactly the needed user pages, all spaces isolated, all other translations kept, and the frames and tables it takes |
| Schedule.SavedRestored | kernel/mp/sched.c:20-47 | restoring and saving is the identity on contexts |
| Schedule.WholeFrameRestored | kernel/mp/sched.c:35-47 | the whole frame comes back exactly when word 31 is the same |
| Schedule.RestoredByAnother | kernel/mp/sched.c:35-47 | what comes back is the interrupted frame with word 31 of the frame that is there |
| Schedule.FirstRunning | kernel/mp/job.c:122-129 | the first RUNNING job: no earlier one is RUNNING |
| Schedule.PassedStep | kernel/mp/job.c:123-129 | one round of job_forward drops or rotates the head |
| Schedule.PassedMembers | kernel/mp/job.c:116-130 | what is left are the jobs not passed and those passed alive |
| Schedule.PassedDistinct | kernel/mp/job.c:60-93 | passing jobs never duplicates a slot or a manager |
| Schedule.ForwardMembers | kernel/mp/job.c:116-130 | the new current job is RUNNING and all jobs are old ones |
| Schedule.ReapedAreGone | kernel/mp/job.c:84-88 | no remaining job's manager is freed |
| Schedule.ForwardPagings | kernel/mp/job.c:84-88 | job_forward frees the managers of exactly the jobs it takes off the ring |
| Schedule.ActiveNotReaped | kernel/mp/sched.c:49-62 | the manager in use when a tick starts is not freed by it, even if its job is terminated |
| Schedule.StepWellFormed | kernel/mp/job.c:25-130 | every step keeps: distinct slots and managers, the allocated managers are exactly those of the jobs, the active manager is the current job's |
| Schedule.Run | kernel/mp/sched.c:49-62 | the same over every run |
| Schedule.OnePagingEach | kernel/mp/job.c:155-183 | as many managers as jobs |
| Schedule.RunNoneLost | kernel/mp/job.c:60-93 | over every run there are exactly as many allocated managers as jobs: none is lost or freed twice |
| Schedule.ContextsKept | kernel/mp/sched.c:20-62 | over every run, each job's record holds what the events say was saved last |
| Schedule.ResumedWhereInterrupted | kernel/mp/sched.c:49-62 | over every run, a resumed job gets frame words 0 to 30, pc and sp of its last interruption or of its creation |
| Schedule.TakingTurns | kernel/mp/sched.c:49-62 | for every two RUNNING jobs, two ticks bring the first back with all it had except word 31, which is the second's |
| Schedule.Word31Lost | kernel/exceptions.asm:103-122 | a run of two jobs and two ticks after which the first goes on with the second's word 31 |
| Schedule.TickNearer | kernel/mp/job.c:116-130 | a tick brings every waiting RUNNING job nearer |
| Schedule.StepNearer | kernel/mp/job.c:38-46 | a creation adds at most one place, a tick takes at least one |
| Schedule.BoundedWaiting | kernel/mp/job.c:116-130 | a RUNNING job at distance d is current after at most d ticks plus one per creation |
| Schedule.StartedAtEntry | kernel/mp/job.c:34-50 | over every run after a creation, the first tick that makes the job current gives pc = entry, sp = stack, frame words 0 to 30 zero and its own manager |
| Schedule.NextTickStarts | kernel/mp/job.c:38-46 | with nothing in between, that is the next tick |
| Schedule.StaysUntilCurrent | kernel/mp/job.c:116-130 | a job that is not terminated stays as it is until it is current |
| Schedule.TerminateMarks | kernel/mp/job.c:220-223 | termination marks the current job TERMINATED and changes nothing else |
| Schedule.TerminatedNeverRuns | kernel/mp/job.c:220-223 | over every run, a terminated job is not current again after a tick, unless its slot is used again |
| Schedule.TickReaps | kernel/mp/job.c:116-130 | a tick brings a terminated job nearer or takes it off the ring with its manager |
| Schedule.BoundedReaping | kernel/mp/job.c:116-130 | once there were as many ticks as jobs, new ones included, the slot and the manager of a terminated job are free |
| Schedule.TerminatedOfTwo | kernel/mp/sched.c:49-62 | with two jobs, that is after the second tick |
| Jobs.LinkedRotated | kernel/mp/job.c:122-127 | moving current along next keeps the cycle and rotates the jobs |
| Jobs.LinkedInserted | kernel/mp/job.c:43-45 | linking behind the current job keeps one cycle |
| Jobs.JobsInserted | kernel/mp/job.c:30-51 | the cycle gains exactly the new job, behind the current one |
| Jobs.LinkedWithout | kernel/mp/job.c:84 | unlinking any position keeps one cycle |
| Jobs.JobsWithout | kernel/mp/job.c:79-84 | the cycle loses exactly that job, the rest in order |
| Jobs.SaveContext | kernel/mp/sched.c:20-33 | the loop saves word 30 - i as entry i, with pc and sp |
| Jobs.RestoreContext | kernel/mp/sched.c:35-47 | the loop restores words 0 to 30 and leaves word 31 |
| Jobs.JobRing.Apply | kernel/mm/paging.c:97-107 | switches the manager and returns the old one; the ring stays |
| Jobs.JobRing.Create | kernel/mp/job.c:25-58 | one more live slot, inserted behind the current job: RUNNING, pc = entry, sp = stack, x zero; the ring is exactly the live slots |
| Jobs.JobRing.Predecessor | kernel/mp/job.c:63-82 | the search ends at the predecessor, also for the current job |
| Jobs.JobRing.Delete | kernel/mp/job.c:60-93 | exactly that job leaves the ring, its slot and its manager are freed, and one heap block comes back |
| Jobs.JobRing.AllocateManager | kernel/mp/job.c:157 | whenever the heap has a free block, kalloc gives one that is no other job's manager and in no reserved region |
| Jobs.JobRing.FreeManager | kernel/mp/job.c:86 | kfree takes exactly that block; the other managers and the reserved regions stay |
| Jobs.BlockOutsideZone | kernel/alloc/heap.c:25-109 | a block that is not reserved lies outside every reserved zone of the heap |
| Jobs.JobRing.ManagerApart | kernel/mp/job.c:157 | a manager overlaps no slab zone and no other manager |
| Jobs.JobRing.MoveForward | kernel/mp/job.c:116-130 | terminates; the ring and the managers are those of `Schedule.Forward` |
| Jobs.JobRing.PassHead | kernel/mp/job.c:123-129 | one round of the loop |
| Jobs.JobRing.TerminateCurrent | kernel/mp/job.c:220-223 | the current job is TERMINATED and nothing else changes; refines the terminate step |
| Jobs.JobRing.SpawnJob | kernel/mp/job.c:215-217 | refines the spawn step |
| Jobs.JobRing.Boot | kernel/start.c:76-81 | the first job alone on the ring with its start values, its own manager in use when it is entered |
| Jobs.JobRing.SaveAndMove | kernel/mp/sched.c:53-56 | after the move the manager still in use is still allocated |
| Jobs.JobRing.TickHandler | kernel/mp/sched.c:49-62 | refines the tick step |
| Kernel.JobsIsolated | kernel/mp/job.c:155-217 | two jobs never reach the same frame through unprivileged accesses |
| Kernel.System.StructuresApart | kernel/mm/paging.c:291-298 | table zone, job zone and all managers lie in different heap regions |
| Kernel.System.BlocksConserved | kernel/mp/job.c:60-93 | free blocks and managers add up to a constant, with one manager for each job, over all spawns, ticks and terminations |
| Kernel.System.Spawn | kernel/mp/job.c:205-217 | a job with a space of its own and its program in it; isolation, ring, and all other translations and contents kept; what is left of frames, tables, slots and heap |
| Kernel.System.LoadProgram | kernel/mp/job.c:208-212 | the program is copied through the new manager while it is in use, and the one before is put back |
| Kernel.System.FillSpace | kernel/mp/job.c:205-212 | a new space with the program in it; every other space keeps translations and contents |
| Kernel.System.OnTick | kernel/mp/sched.c:49-62 | the tick step keeps every job's space |
| Kernel.System.OnTerminate | kernel/mp/job.c:220-223 | the terminate step keeps every job's space |
| Start.TakeFromTail | kernel/alloc/heap.c:25-75 | first fit in a heap with a free tail takes no more than the next blocks; the region is new, aligned, and the others stay |
| Start.SlabInHeap | kernel/mm/paging.c:291-298 | a slab whose zone is a live heap region of its own |
| Start.BelowImage | kernel/start.c:44-50 | a region stays below the kernel's code exactly if its last block number is below 0xfe80 |
| Start.SetUp | kernel/start.c:90-94 | the heap, and the inode, table, job and frame slabs with the kernel's sizes, all below its code: no job, no space, all invariants |
| Start.UserMode | kernel/start.c:62-82 | from there to one RUNNING job in its own loaded space |
| Start.StartKernel | kernel/start.c:84-107 | from a zero heap table the kernel reaches a system with all invariants and one RUNNING job, with 127 job slots and the counted rest of frames, tables and heap left |
| Programs.FewTablesOf | kernel/mm/paging.c:209-289 | three tables for each program and one for every 512 pages are enough |
| Programs.EnoughRoom | include/paging.h:14 | 4096 tables and 128 slots are enough for any 128 programs whose pages fit 4096 frames |
| Programs.OneMoreLoaded | kernel/mp/job.c:205-217 | what was loaded before stays loaded |
| Programs.SpawnNext | kernel/mp/job.c:185-218 | the next program is started, and there is still room for the rest |
| Programs.SpawnAll | kernel/mp/job.c:185-218 | a job for each program; the steps are a run of the scheduler |
| Programs.SpawnRunJobs | kernel/mp/job.c:38-46 | a run of creations has one more job for each |
| Programs.LoadedApart | kernel/mp/job.c:155-183 | no frame is reached from two of the loaded programs |
| Programs.StartPrograms | kernel/start.c:84-107 | from a zero heap table, any list of at most 128 programs whose pages fit is started: a job each, every program in its own space, no shared frame |
| Slabs.AlignToObjectIsLeast | kernel/alloc/slab.c:16-20 | the least multiple of the object size that holds the bytes |
| Slabs.AlignToObjectIsCount | include/slab.h:55-58 | a result that fits its int is the announced number of objects exactly for objects of one byte or no bytes |
| Slabs.AlignToObjectExample | include/slab.h:55-58 | 9 bytes in objects of 8: the result is 16, the number of objects 2 |
| Slabs.HeaderHoldsAllBits | kernel/alloc/slab.c:22-29 | the header has a bit per slot and keeps objects aligned, and one object less would not do |
| Slabs.MaskTestIsBit | kernel/alloc/slab.c:56-63 | the mask test reads bit k |
| Slabs.WithBitAt | kernel/alloc/slab.c:65-73 | the update sets bit k and no other |
| Slabs.WrittenHeader | kernel/alloc/slab.c:65-73 | writing a bit adds or removes exactly that slot |
| Slabs.SlotsDisjoint | kernel/alloc/slab.c:97-100 | objects in different slots do not overlap |
| Slabs.PositionFits | kernel/alloc/slab.c:97-98 | the 32-bit offset is not truncated |
| Slabs.InsideIsNoAddress | kernel/alloc/slab.c:115-118 | a pointer into an object is no object |
| Slabs.Slab.constructor | kernel/alloc/slab.c:36-54 | no live slot |
| Slabs.Slab.GetHeaderBit | kernel/alloc/slab.c:56-63 | 1 exactly for live slots |
| Slabs.Slab.SetHeaderBit | kernel/alloc/slab.c:65-73 | the live set gains or loses the slot |
| Slabs.Slab.NextSlot | kernel/alloc/slab.c:75-86 | the highest free slot |
| Slabs.Slab.Allocate | kernel/alloc/slab.c:88-101 | adds the highest free slot; its object is new and lies in the area |
| Slabs.Slab.Free | kernel/alloc/slab.c:103-126 | 1 exactly for the address of a live object, which alone is removed |
| Heaps.TagIsByte | include/heap.h:27-29 | the flags are the kernel's bits of the tag byte |
| Heaps.RegionsDisjoint | kernel/alloc/heap.c:25-109 | live regions are pairwise disjoint |
| Heaps.RegionsCover | kernel/alloc/heap.c:25-109 | a block is taken exactly when a live region holds it |
| Heaps.MarkedRegions | kernel/alloc/heap.c:77-85 | marking a free run adds exactly that region and lowers the count by its length |
| Heaps.TailAfterFit | kernel/alloc/heap.c:37-71 | first fit moves the start of a free tail by no more than the blocks it takes |
| Heaps.FreeCell | kernel/alloc/heap.c:37-71 | a heap with a positive free count has room for one block |
| Heaps.ZeroedRegions | kernel/alloc/heap.c:99-109 | clearing a run removes exactly that region and raises the count |
| Heaps.ReleaseUndoesAllocate | kernel/alloc/heap.c:77-109 | release after allocation restores the table |
| Heaps.Heap.constructor | kernel/alloc/heap.c:8-23 | no live region, all blocks free, over a table whose tags after the first are zero |
| Heaps.Heap.MarkTaken | kernel/alloc/heap.c:77-85 | the tags of one run are set |
| Heaps.Heap.Search | kernel/alloc/heap.c:37-71 | the lowest fit, or a proof that there is none |
| Heaps.Heap.Alloc | kernel/alloc/heap.c:25-75 | complete first fit, unchanged exactly when nothing fits, regions and count updated |
| Heaps.Heap.Take | kernel/alloc/heap.c:59-62 | one more region, and the count lowered by its length |
| Heaps.Heap.Free | kernel/alloc/heap.c:87-97 | exactly the region whose first block holds the pointer is removed |
| Heaps.Heap.MarkFree | kernel/alloc/heap.c:99-109 | terminates, clears the run and counts it |
| Disk.Memcpy | kernel/string.c:132-141 | below 2^31 bytes, the bytes are copied and no other is written |
| Disk.LoadData | kernel/fs/fat.c:55-86 | for every offset and length, the written bytes are the disk's and nothing else is written |
| Fat.ChainUnique | kernel/fs/fat.c:183-191 | a start determines its chain |
| Fat.ChainAcyclic | kernel/fs/fat.c:183-191 | a chain that ends visits no cluster twice |
| Fat.StandardChainFollowed | kernel/fs/fat.c:183-188 | the kernel follows the clusters of a standard chain and then goes on from its end mark |
| Fat.StandardChainSeen | kernel/fs/fat.c:183 | a standard chain is seen as it is exactly if its end mark is 0xffff |
| Fat.OtherEndMarkExample | kernel/fs/fat.c:183 | a volume whose chain ends in 0xfff8 and is not seen |
| Fat.EndMarkExample | kernel/fs/fat.c:183 | the same volume with the mark 0xffff is seen |
| Fat.ClustersAt | kernel/fs/fat.c:154-164 | where byte r of cluster k lies on the disk |
| Fat.ContentsAt | kernel/fs/fat.c:154-192 | byte j of a file is the disk byte at data offset + (cluster - 2) * cluster size + place in the cluster |
| Fat.ChainLength | kernel/fs/fat.c:179-191 | the length condition is ceil(size / cluster size) |
| Fat.ReadCluster | kernel/fs/fat.c:154-164 | the disk bytes from data offset + (cluster - 2) * cluster size on, in whole sectors |
| Fat.OffsetsExact | kernel/fs/fat.c:180-190 | the int counter gives every cluster its place exactly if the last one starts below 2^31 |
| Fat.LongFiles | kernel/fs/fat.c:180-190 | well-formed volumes and files of more than 2^31 bytes whose last cluster would go below the destination |
| Fat.CountersRight | kernel/fs/fat.c:179-190 | in every round the int counters give the place and the length of the next piece, also from 2^31 bytes left on |
| Fat.ReadNext | kernel/fs/fat.c:183-188 | one cluster more of the file, and the next of the chain |
| Fat.ReadEntry | kernel/fs/fat.c:173-192 | terminates with the concatenated clusters cut to the size, writing no further than the size rounded up to sectors |
| Fat.ExtentIsRounded | kernel/fs/fat.c:55-86 | no more is written than the size rounded up to sectors |
| Fat.FollowChain | kernel/fs/fat.c:215-218 | k lookups lead to cluster k of the chain |
| Fat.ReadEntryOffsetSize | kernel/fs/fat.c:194-248 | exactly the part of the range in its first cluster arrives, and nothing else of the destination changes |
| Fat.RangeArrives | kernel/fs/fat.c:222-245 | the whole range arrives, whatever the destination held, exactly if it lies inside one cluster |
| Fat.RangeLost | kernel/fs/fat.c:242-245 | for every range over two clusters, a destination that does not get it |
| Fat.ReadEntryClusterOffset | kernel/fs/fat.c:250-268 | exactly the k-th cluster, or nothing when the chain is too short |
| FatInodes.BlockInCluster | kernel/fs/fat_fs.c:97-99 | every buffer block lies inside one cluster |
| FatInodes.FatInode.constructor | kernel/fs/fat_fs.c:58-61 | a stream at position 0 with nothing buffered |
| FatInodes.FatInode.Get | kernel/fs/fat_fs.c:79-105 | byte `position` of what fat_read_entry delivers, and 0 exactly at the end |
| FatInodes.FatInode.Refill | kernel/fs/fat_fs.c:91-100 | the buffer holds the block, read inside one cluster |
| FatInodes.FatInode.Left | kernel/fs/fat_fs.c:115-119 | position plus left is the size |
| FatInodes.FatInode.ReadAll | kernel/mp/job.c:187-191 | reading byte by byte yields the rest of the file |
| FatLoad.LoadTable | kernel/fs/fat.c:117-128 | entry i is the little-endian word at its place on the disk |
| FatLoad.EntryLoaded | include/fs/fat.h:25-39 | start cluster and size are read from bytes 26 to 31 of an entry |
| FatLoad.LoadEntries | kernel/fs/fat.c:130-141 | the entries of the root directory, in order |
| FatLoad.Load | kernel/fs/fat.c:88-115 | the volume and the root directory that the boot sector describes, field by field from its bytes, with a cluster size that fits an int |
| FatLoad.DescribedLayout | include/fs/fat.h:8-39 | every loaded value from the numbered bytes of the disk: boot sector fields, table words and directory entries |
| FatLoad.DataOffsetAsSpecified | kernel/fs/fat.c:101-109 | the data area is the specified one exactly if the root directory fills whole sectors |
| FatLoad.DataOffsetExample | kernel/fs/fat.c:101-109 | a loadable volume of 100 sectors with one root entry: the data area starts 480 bytes too early |
| Fill.CoveredFillsWord | kernel/string.c:96-100 | the built word repeats the lowest byte exactly if that byte covers the others |
| Fill.StoredFills | kernel/string.c:94-116 | the stored bytes are a byte fill exactly if no word is written or the lowest byte covers the others |
| Fill.IntsExact | kernel/string.c:101-102 | the two int counters of memset are right exactly below 2^31 bytes |
| Fill.LongFillExample | kernel/string.c:101-110 | for 2^31 + 4 bytes the last four would go 2^31 bytes below the area |
| Fill.ByteValueCovered | kernel/string.c:94-116 | values from 0 to 255 are covered |
| Fill.ByteWord | kernel/string.c:94-100 | an int from 0 to 255 converts to a lowest byte and zeros |
| Fill.NotCoveredExample | kernel/string.c:94-116 | 0x100 is not |
| Fill.Memset | kernel/string.c:94-116 | for 0 to 255 the byte fill; in general one exactly if no word is written or the lowest byte covers the others; nothing beyond |
| Fill.MemsetWord | kernel/string.c:96-116 | every stored byte, for every converted argument |
| Numerals.ParseNumeral | kernel/log.c:92-109 | a printed number parses back to itself |
| Numerals.DigitTable | kernel/log.c:103 | the 36 digit characters |
| Numerals.NumeralAt | kernel/log.c:101-107 | character by character, the numeral shows the digits of the number, the highest first |
| Numerals.NumeralOfZero | kernel/log.c:97-99 | zero is the one character 0 |
| Numerals.PlaceIsQuotient | kernel/log.c:101-105 | the i-th digit is the number divided by base^i, modulo the base |
| Numerals.NoLeadingZero | kernel/log.c:101-105 | no leading zero |
| Numerals.DigitCount | kernel/log.c:101-105 | at most k digits exactly below base^k |
| Numerals.FitsBuffer | kernel/log.c:94 | from base 3 on every 64-bit number fits the buffer |
| Numerals.BinaryOverflows | kernel/log.c:94 | in base 2 exactly the numbers below 2^49 fit |
| Numerals.StrRev | kernel/string.c:118-130 | in-place reversal, nothing else written |
| Numerals.StrCpy | kernel/string.c:4-13 | the string with its NUL, nothing beyond, and the place of the NUL |
| Numerals.WriteDigits | kernel/log.c:101-106 | the digits, lowest first |
| Numerals.ToString | kernel/log.c:92-109 | the numeral of the number in the base |

## Left out

- Inline assembly, system registers, TLB and barrier effects; `current_paging_manager`, the frame, pc and sp are plain state.
- Table-level permission bits, execute-never and memory attribute fields of descriptors, which the kernel never sets.
- Interrupt controller, UART, timer and virtio drivers; the block device is an immutable sequence of sectors.
- Exception dispatch; ticks that arrive in EL1.
- The ELF headers; the bytes of the program and its entry are arguments.
- The RAM file system, whose open search never advances, and directory lookup by name.
- Jobs.JobRing.Create: job names and open file tables, which nothing else here reads.
- Kernel.System.Spawn: reading the file (`FatInodes.FatInode.ReadAll` does that on its own), parsing its headers, and the heap blocks for that.
- Start.UserMode: the disk, the file system and the reading of the file; the program is an argument.
- Start.StartKernel: the same, the drivers, and the heap blocks that reading a file takes.
- Fat.ReadEntryOffsetSize: ranges longer than a cluster, for which the code writes past the end of its scratch buffer.
- Reclaiming page tables, user frames and inodes at job deletion, which the kernel does not do.
- Paging.PageTables.ManagerMap1Gb: a table that a gigabyte block replaces stays allocated and is reached by no walk, as in the original.
- Formatting (`sprintf_internal`, `klog`) and the remaining string routines, which are routine loops.
