/** Starting the kernel: start, setup_heap, enable_paging_test and usermode of kernel/start.c, with the
    sizes they use. The result is a system in which the first job runs, so the invariants of `Kernel`
    hold from there on. */
module Start {
  import opened Bits
  import opened Slabs
  import opened Walk
  import opened Paging
  import opened AddressSpaces
  import opened Schedule
  import opened Jobs
  import opened Kernel
  import Heaps
  import Disk

  /** The heap of 0x10000 blocks begins behind its table, which begins at 0x40100000. */
  const HEAP_BLOCKS: nat := 0x1_0000
  const HEAP_START: nat := 0x4010_0000 + 8 * 0x1_0000
  /** Where the linker script puts the code of the kernel. */
  const IMAGE: nat := 0x5000_0000
  const MAX_INODES: nat := 32
  const MAX_TABLES: nat := 0x1000
  const MAX_JOBS: nat := 128
  const USER_FRAMES: nat := 0x1000
  /** The sizes of struct inode and struct job. */
  const INODE_SIZE: nat := 40
  const JOB_SIZE: nat := 392

  /** The heap reaches beyond the start of the kernel's code. A live region stays below it exactly if its
      last block has a number below 0xfe80. */
  lemma BelowImage(t: seq<Heaps.Tag>, i: nat)
    requires Heaps.Runs(t, HEAP_BLOCKS) && i in Heaps.Regions(t, HEAP_BLOCKS)
    ensures HEAP_START + 0x1000 * HEAP_BLOCKS == IMAGE + 0x18_0000
    ensures HEAP_START + 0x1000 * Heaps.Regions(t, HEAP_BLOCKS)[i] <= IMAGE <==>
            Heaps.RunEnd(t, HEAP_BLOCKS, i) < 0xfe80
  {
  }

  /** The heap of the kernel, whose blocks are taken up to number `used` and free from there on. */
  ghost predicate HeapReady(heap: Heaps.Heap, used: nat)
    reads heap, heap.table
  {
    && heap.Valid() && heap.start == HEAP_START && heap.blocks == HEAP_BLOCKS
    && heap.freeBlocks + used == HEAP_BLOCKS
    && Heaps.FreeFrom(heap.table[..], heap.blocks, used)
  }

  /** kalloc while the heap has a free tail that is long enough: a new region, which ends no higher than
      the blocks used so far and those it takes. */
  method TakeFromTail(heap: Heaps.Heap, size: nat, ghost used: nat) returns (ptr: nat)
    requires HeapReady(heap, used) && size > 0 && used + Heaps.BlocksFor(size) <= HEAP_BLOCKS
    modifies heap, heap.table
    ensures HeapReady(heap, used + Heaps.BlocksFor(size))
    ensures IsZone(HEAP_START, heap.Live(), ptr, ptr + size) && ptr % 0x1000 == 0
    ensures (ptr - HEAP_START) / 4096 !in old(heap.Live()) && Reserves(heap.Live(), old(heap.Live()))
    ensures ptr + size <= HEAP_START + 0x1000 * (used + Heaps.BlocksFor(size))
  {
    assert Heaps.FreeRun(heap.table[..], heap.blocks, used, Heaps.BlocksFor(size));
    ghost var t := heap.table[..];
    ghost var at: nat;
    ptr, at := heap.Alloc(size);
    Heaps.TailAfterFit(t, heap.blocks, used, at, Heaps.BlocksFor(size));
    assert (ptr - HEAP_START) / 4096 == at;
  }

  /** A slab with its zone in the heap, as fs_init_slab, paging_init_slab and job_init_slab make them. */
  method SlabInHeap(heap: Heaps.Heap, objectSize: nat, maxStore: nat, ghost used: nat) returns (slab: Slab)
    requires objectSize > 0 && NeededSize(objectSize, maxStore) > 0
    requires HeapReady(heap, used) && used + Heaps.BlocksFor(NeededSize(objectSize, maxStore)) <= HEAP_BLOCKS
    modifies heap, heap.table
    ensures HeapReady(heap, used + Heaps.BlocksFor(NeededSize(objectSize, maxStore)))
    ensures slab.Valid() && slab.Live() == {} && fresh(slab.header)
    ensures slab.objectSize == objectSize && slab.maxStore == maxStore
    ensures slab.Base() == slab.start + HeaderSize(objectSize, maxStore) && slab.start % 0x1000 == 0
    ensures IsZone(HEAP_START, heap.Live(), slab.start, slab.End())
    ensures (slab.start - HEAP_START) / 4096 !in old(heap.Live()) && Reserves(heap.Live(), old(heap.Live()))
    ensures slab.End() <= HEAP_START + 0x1000 * (used + Heaps.BlocksFor(NeededSize(objectSize, maxStore)))
  {
    var zone := TakeFromTail(heap, NeededSize(objectSize, maxStore), used);
    slab := new Slab(objectSize, maxStore, zone);
    TotalIsProduct(objectSize, maxStore);
  }

  /** The zones of the three slabs take 1, 0x1001 and 13 blocks. */
  lemma ZoneSizes()
    ensures NeededSize(INODE_SIZE, MAX_INODES) == 1320 && Heaps.BlocksFor(1320) == 1
    ensures NeededSize(0x1000, MAX_TABLES) == 0x100_1000 && Heaps.BlocksFor(0x100_1000) == 0x1001
    ensures NeededSize(JOB_SIZE, MAX_JOBS) == 50568 && Heaps.BlocksFor(50568) == 13
    ensures HeaderSize(0x1000, MAX_TABLES) == 0x1000
  {
  }

  /** paging_init_slab: the tables lie at multiples of their size. */
  method TableSlab(heap: Heaps.Heap) returns (slab: Slab)
    requires HeapReady(heap, 1)
    modifies heap, heap.table
    ensures HeapReady(heap, 0x1002) && IsZone(HEAP_START, heap.Live(), slab.start, slab.End())
    ensures slab.Valid() && slab.Live() == {} && fresh(slab.header)
    ensures slab.objectSize == 0x1000 && slab.maxStore == MAX_TABLES
    ensures slab.Base() % 0x1000 == 0 && slab.End() <= IMAGE
  {
    ZoneSizes();
    slab := SlabInHeap(heap, 0x1000, MAX_TABLES, 1);
  }

  /** job_init_slab: job records in another region. */
  method JobSlab(heap: Heaps.Heap, tableSlab: Slab) returns (slab: Slab)
    requires HeapReady(heap, 0x1002) && IsZone(HEAP_START, heap.Live(), tableSlab.start, tableSlab.End())
    modifies heap, heap.table
    ensures HeapReady(heap, 0x100f) && IsZone(HEAP_START, heap.Live(), slab.start, slab.End())
    ensures IsZone(HEAP_START, heap.Live(), tableSlab.start, tableSlab.End()) && slab.start != tableSlab.start
    ensures slab.Valid() && slab.Base() > 0 && slab.Live() == {} && fresh(slab.header)
    ensures slab.maxStore == MAX_JOBS && slab.End() <= IMAGE
  {
    ZoneSizes();
    slab := SlabInHeap(heap, JOB_SIZE, MAX_JOBS, 0x1002);
  }

  /** One table per 2 MB, and one more for the first gigabyte. */
  lemma {:induction false} FewTables(n: nat)
    requires n <= 0x4_0000
    ensures TablesFor(n) <= 1 + Ceiling(n, 0x200)
  {
    if n > 0 {
      FewTables(n - 1);
    }
  }

  /** The kernel before there is a job, with `unused` free tables. */
  ghost predicate Idle(ring: JobRing, spaces: Spaces, unused: nat)
    reads ring, ring.slab.header, ring.heap, ring.heap.table
    reads spaces, spaces.tables, spaces.tables.slab.header, spaces.userSpace.header
  {
    && Apart(ring, spaces) && ring.slab.End() <= IMAGE && spaces.tables.slab.End() <= IMAGE
    && ring.Valid() && ring.Backed() && ring.ring == [] && ring.managers == {}
    && ring.slab.maxStore == MAX_JOBS && ring.slab.Live() == {} && |ring.cpu.frame| == 32
    && HeapReady(ring.heap, 0x100f)
    && spaces.Valid() && spaces.FreeFrames() == USER_FRAMES && spaces.tables.Unused() == unused
  }

  /** The heap, and the slabs in it. The tags of the heap are zero except for the first, which is cleared. */
  method SetUpHeap(tags: array<Heaps.Tag>) returns (heap: Heaps.Heap, tableSlab: Slab, jobSlab: Slab)
    requires tags.Length == 8 * HEAP_BLOCKS && forall k :: 1 <= k < HEAP_BLOCKS ==> tags[k] == Heaps.FREE
    modifies tags
    ensures fresh(heap) && HeapReady(heap, 0x100f) && heap.table == tags
    ensures tableSlab.Valid() && tableSlab.Live() == {} && fresh(tableSlab.header)
    ensures tableSlab.objectSize == 0x1000 && tableSlab.maxStore == MAX_TABLES
    ensures tableSlab.Base() % 0x1000 == 0 && tableSlab.End() <= IMAGE
    ensures jobSlab.Valid() && jobSlab.Base() > 0 && jobSlab.Live() == {} && fresh(jobSlab.header)
    ensures jobSlab.maxStore == MAX_JOBS && jobSlab.header != tableSlab.header && jobSlab.End() <= IMAGE
    ensures IsZone(HEAP_START, heap.Live(), tableSlab.start, tableSlab.End())
    ensures IsZone(HEAP_START, heap.Live(), jobSlab.start, jobSlab.End()) && jobSlab.start != tableSlab.start
  {
    ZoneSizes();
    heap := new Heaps.Heap(HEAP_START, tags, HEAP_BLOCKS);
    var _ := SlabInHeap(heap, INODE_SIZE, MAX_INODES, 0);
    tableSlab := TableSlab(heap);
    jobSlab := JobSlab(heap, tableSlab);
  }

  /** The heap and the slabs, with no space and no job. */
  method SetUp(memory: Memory, tags: array<Heaps.Tag>, cpu: Cpu) returns (ring: JobRing, spaces: Spaces)
    requires tags.Length == 8 * HEAP_BLOCKS && |cpu.frame| == 32
    requires forall k :: 1 <= k < HEAP_BLOCKS ==> tags[k] == Heaps.FREE
    modifies tags
    ensures Idle(ring, spaces, MAX_TABLES) && spaces.spaces == {} && ring.cpu == cpu
    ensures fresh(ring) && fresh(ring.slab.header) && fresh(ring.heap) && ring.heap.table == tags
    ensures fresh(spaces) && fresh(spaces.tables) && fresh(spaces.tables.slab.header)
    ensures fresh(spaces.userSpace.header)
  {
    var heap, tableSlab, jobSlab := SetUpHeap(tags);
    var tables := new PageTables(tableSlab, memory);
    ZoneSizes();
    spaces := new Spaces(tables, USER_FRAMES);
    ring := new JobRing(jobSlab, heap, 0, cpu);
  }

  /** The first space is the kernel's own, and its manager is put to use. */
  method EnablePaging(ring: JobRing, spaces: Spaces, kernelManager: nat)
    requires Idle(ring, spaces, MAX_TABLES)
    modifies ring`active, spaces, spaces.tables, spaces.tables.slab.header
    ensures Idle(ring, spaces, MAX_TABLES - 1) && ring.active == kernelManager && ring.cpu == old(ring.cpu)
  {
    var _ := spaces.KernelSpace();
    var _ := ring.Apply(kernelManager);
  }

  /** The space of the first job with its program, and the top of its mapped user area. */
  method FirstSpace(ring: JobRing, spaces: Spaces, manager: nat, program: seq<Disk.Byte>)
    returns (root: nat, stack: nat, ram: Ram)
    requires ring.Valid() && spaces.Valid() && Apart(ring, spaces)
    requires UserPages(program) <= USER_FRAMES == spaces.FreeFrames() && spaces.tables.Unused() == MAX_TABLES - 1
    modifies ring`active, spaces, spaces.tables, spaces.tables.slab.header, spaces.userSpace.header
    ensures ring.Valid() && ring.Jobs() == old(ring.Jobs()) && ring.active == old(ring.active)
    ensures spaces.Valid() && root in spaces.spaces && stack == UserPage(UserPages(program))
    ensures UserMapped(spaces.tables.mem, root, UserPages(program))
    ensures Loaded(ram, spaces.tables.mem, root, program, |program|)
    ensures spaces.FreeFrames() == USER_FRAMES - UserPages(program)
    ensures spaces.tables.Unused() >= MAX_TABLES - 2 - TablesFor(UserPages(program))
  {
    FewTables(UserPages(program));
    var allocatedSize;
    root, allocatedSize := spaces.CreatePaging(|program|);
    stack := 0x8000_0000 + allocatedSize;
    var previous := ring.Apply(manager);
    ram := CopyProgram(map[], spaces.tables.mem, root, program, UserPages(program), spaces.spaces, spaces.frames);
    var _ := ring.Apply(previous);
  }

  /** What the first job leaves of the kernel's 4096 frames, 4096 tables and 128 job slots, and of its heap. */
  predicate FirstRoom(r: Room, program: seq<Disk.Byte>) {
    && r.frames == USER_FRAMES - UserPages(program)
    && r.tables >= MAX_TABLES - 2 - TablesFor(UserPages(program))
    && r.slots == MAX_JOBS - 1 && r.blocks == HEAP_BLOCKS - 0x1010
  }

  /** The first job: a manager, a space with the program, a job record, and on to user mode. */
  method UserMode(ring: JobRing, spaces: Spaces, program: seq<Disk.Byte>, entry: nat)
    returns (system: System, job: nat, manager: nat)
    requires Idle(ring, spaces, MAX_TABLES - 1) && UserPages(program) <= USER_FRAMES
    modifies ring, ring.slab.header, ring.heap, ring.heap.table
    modifies spaces, spaces.tables, spaces.tables.slab.header, spaces.userSpace.header
    ensures fresh(system) && system.ring == ring && system.spaces == spaces && system.Valid()
    ensures ring.Abstract() == State([Job(job, RUNNING, NewContext(entry, UserPage(UserPages(program))), manager)],
                                     manager, {manager}, old(ring.cpu))
    ensures manager in system.roots && FirstRoom(system.Left(), program)
    ensures Loaded(system.ram, spaces.tables.mem, system.roots[manager], program, |program|)
  {
    manager := ring.AllocateManager();
    var root, stack, ram := FirstSpace(ring, spaces, manager, program);
    job := ring.Boot(entry, stack, manager);
    system := new System(ring, spaces, manager, root, ram);
  }

  /** From a cleared heap table to the first job in user mode. What holds of every system between events
      holds of this one. */
  method StartKernel(memory: Memory, tags: array<Heaps.Tag>, cpu: Cpu, kernelManager: nat,
                     program: seq<Disk.Byte>, entry: nat)
    returns (system: System, job: nat, manager: nat)
    requires tags.Length == 8 * HEAP_BLOCKS && |cpu.frame| == 32 && UserPages(program) <= USER_FRAMES
    requires forall k :: 1 <= k < HEAP_BLOCKS ==> tags[k] == Heaps.FREE
    modifies tags
    ensures fresh(system) && system.Valid() && manager in system.roots && FirstRoom(system.Left(), program)
    ensures system.ring.slab.End() <= IMAGE && system.spaces.tables.slab.End() <= IMAGE
    ensures fresh(system.ring) && fresh(system.ring.slab.header) && fresh(system.ring.heap) && system.ring.heap.table == tags
    ensures fresh(system.spaces) && fresh(system.spaces.tables) && fresh(system.spaces.tables.slab.header)
    ensures fresh(system.spaces.userSpace.header)
    ensures system.ring.Abstract() ==
            State([Job(job, RUNNING, NewContext(entry, UserPage(UserPages(program))), manager)], manager, {manager}, cpu)
    ensures Loaded(system.ram, system.spaces.tables.mem, system.roots[manager], program, |program|)
  {
    var ring, spaces := SetUp(memory, tags, cpu);
    EnablePaging(ring, spaces, kernelManager);
    system, job, manager := UserMode(ring, spaces, program, entry);
  }
}
