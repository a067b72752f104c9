/** Jobs and their address spaces together: job_create_from_file, the tick and termination of
    kernel/mp over the paging managers of kernel/mm.

    A paging manager is an allocated struct whose address identifies it; its level-1 table is found
    through it. Managers are freed with their jobs and their addresses are used again. */
module Kernel {
  import opened Descriptors
  import opened Walk
  import opened Slabs
  import opened AddressSpaces
  import opened Schedule
  import opened Jobs
  import Heaps
  import Disk

  /** The space that job `j` runs in. */
  function SpaceOf(roots: map<nat, nat>, j: Job): nat
    requires j.paging in roots
  {
    roots[j.paging]
  }

  /** Every allocated manager has a level-1 table of its own. */
  ghost predicate Separate(roots: map<nat, nat>, managers: set<nat>, spaces: set<nat>) {
    && (forall m :: m in managers ==> m in roots && roots[m] in spaces)
    && (forall m, n :: m in managers && n in managers && m != n ==> roots[m] != roots[n])
  }

  /** Managers that are left keep what they had. */
  lemma FewerManagers(roots: map<nat, nat>, managers: set<nat>, left: set<nat>, spaces: set<nat>)
    requires Separate(roots, managers, spaces) && left <= managers
    ensures Separate(roots, left, spaces)
  {
  }

  /** Two different jobs never reach the same frame through what user code may access, and what it may
      access lies at or above 0x80000000. */
  lemma JobsIsolated(s: State, roots: map<nat, nat>, mem: Memory, spaces: set<nat>, frames: map<nat, Use>,
                     i: nat, j: nat, v: nat, u: nat)
    requires Schedule.WellFormed(s) && Separate(roots, s.managers, spaces) && Isolated(mem, spaces, frames)
    requires i < j < |s.jobs| && v < VA_LIMIT && u < VA_LIMIT
    requires s.jobs[i].paging in roots && s.jobs[j].paging in roots
    requires Translate(mem, 1, SpaceOf(roots, s.jobs[i]), v).Some?
    requires Translate(mem, 1, SpaceOf(roots, s.jobs[i]), v).value.unprivileged
    requires Translate(mem, 1, SpaceOf(roots, s.jobs[j]), u).Some?
    requires Translate(mem, 1, SpaceOf(roots, s.jobs[j]), u).value.unprivileged
    ensures Page(Translate(mem, 1, SpaceOf(roots, s.jobs[i]), v).value.pa) !=
            Page(Translate(mem, 1, SpaceOf(roots, s.jobs[j]), u).value.pa)
    ensures Translate(mem, 1, SpaceOf(roots, s.jobs[i]), v).value.pa >= 0x8000_0000
  {
    var r, t := SpaceOf(roots, s.jobs[i]), SpaceOf(roots, s.jobs[j]);
    assert s.jobs[i] in s.jobs && s.jobs[j] in s.jobs;
    KernelProtected(mem, spaces, frames, r, v);
    if Page(Translate(mem, 1, r, v).value.pa) == Page(Translate(mem, 1, t, u).value.pa) {
      NoSharedFrame(mem, spaces, frames, r, v, t, u);
    }
  }

  /** The pages of a program and its stack. */
  function UserPages(program: seq<Disk.Byte>): nat { PagesFor(|program| + 4096) }

  /** The slab lies in a reserved region of the heap. */
  ghost predicate InZone(ring: JobRing, slab: Slab) {
    IsZone(ring.heap.start, ring.reserved, slab.start, slab.End())
  }

  /** The jobs and the spaces share no memory. */
  ghost predicate Apart(ring: JobRing, spaces: Spaces) {
    && InZone(ring, ring.slab) && InZone(ring, spaces.tables.slab) && ring.slab.start != spaces.tables.slab.start
    && ring.slab.header != spaces.tables.slab.header && ring.slab.header != spaces.userSpace.header
    && ring.heap.table as object != spaces.tables.slab.header as object
    && ring.heap.table as object != spaces.userSpace.header as object
  }

  /** What is left: user frames, tables, job slots and heap blocks. */
  datatype Room = Room(frames: int, tables: int, slots: int, blocks: int)

  /** There is enough for one more job. */
  predicate Fits(r: Room, program: seq<Disk.Byte>) {
    && |program| + 4096 < 0x8000_0000
    && UserPages(program) <= r.frames && 1 + TablesFor(UserPages(program)) <= r.tables
    && r.slots > 0 && r.blocks > 0
  }

  /** What one more job takes. Tables may be saved where two areas share one. */
  predicate Takes(r0: Room, r1: Room, program: seq<Disk.Byte>) {
    && r1.frames == r0.frames - UserPages(program)
    && r1.tables >= r0.tables - 1 - TablesFor(UserPages(program))
    && r1.slots == r0.slots - 1 && r1.blocks == r0.blocks - 1
  }

  class System {
    const ring: JobRing
    const spaces: Spaces
    /** The level-1 table of each paging manager. */
    var roots: map<nat, nat>
    /** The bytes of physical memory that programs are loaded to. */
    var ram: Ram
    /** The number of heap blocks that are free or hold a manager. */
    ghost const capacity: nat

    /** Between events: jobs well formed, managers on the heap and none lost, spaces isolated, one space
        per job. */
    ghost predicate Valid()
      reads this, ring, ring.slab.header, ring.heap, ring.heap.table
      reads spaces, spaces.tables, spaces.tables.slab.header, spaces.userSpace.header
    {
      && Apart(ring, spaces)
      && ring.Valid() && ring.Backed() && spaces.Valid()
      && Schedule.WellFormed(ring.Abstract())
      && ring.heap.freeBlocks + |ring.ring| == capacity
      && Separate(roots, ring.managers, spaces.spaces)
    }

    ghost function Left(): Room
      requires ring.slab.Valid() && spaces.userSpace.Valid() && spaces.tables.slab.Valid()
      reads ring.slab.header, ring.heap, spaces.tables, spaces.tables.slab.header, spaces.userSpace.header
    {
      Room(spaces.FreeFrames(), spaces.tables.Unused(), ring.slab.maxStore - |ring.slab.Live()|, ring.heap.freeBlocks)
    }

    /** Free heap blocks and managers add up to the capacity, and there is one manager for each job:
        whatever is created, terminated and reaped, no block is lost. */
    lemma BlocksConserved()
      requires Valid()
      ensures ring.heap.freeBlocks + |ring.managers| == capacity && |ring.managers| == |ring.Jobs()|
    {
      OnePagingEach(ring.Jobs());
    }

    /** The translation tables, the job records and the managers lie in different heap regions. */
    lemma StructuresApart(m: nat)
      requires Valid() && m in ring.managers
      ensures OutsideZone(m, ring.slab.start, ring.slab.End())
      ensures OutsideZone(m, spaces.tables.slab.start, spaces.tables.slab.End())
      ensures ring.slab.End() <= spaces.tables.slab.start || spaces.tables.slab.End() <= ring.slab.start
      ensures forall n :: n in ring.managers && n != m ==> m + 4096 <= n || n + 4096 <= m
    {
      ring.ManagerApart(m, ring.slab.start, ring.slab.End());
      ring.ManagerApart(m, spaces.tables.slab.start, spaces.tables.slab.End());
      ring.ZonesApart(ring.slab.start, ring.slab.End(), spaces.tables.slab.start, spaces.tables.slab.End());
    }

    constructor (ring: JobRing, spaces: Spaces, manager: nat, root: nat, ram: Ram)
      requires ring.Valid() && ring.Backed() && spaces.Valid() && Schedule.WellFormed(ring.Abstract())
      requires ring.managers == {manager} && root in spaces.spaces && Apart(ring, spaces)
      ensures Valid() && this.ring == ring && this.spaces == spaces && roots == map[manager := root]
      ensures this.ram == ram
    {
      assert |ring.ring| == 1 && Separate(map[manager := root], ring.managers, spaces.spaces);
      this.ring, this.spaces, this.roots, this.ram := ring, spaces, map[manager := root], ram;
      this.capacity := ring.heap.freeBlocks + 1;
    }

    /** Spawning: a manager from the heap, a space for it, the program in that space, then a job. */
    method Spawn(program: seq<Disk.Byte>, entry: nat) returns (job: nat, manager: nat)
      requires Valid() && Fits(Left(), program)
      modifies this, ring, ring.slab.header, ring.heap, ring.heap.table
      modifies spaces, spaces.tables, spaces.tables.slab.header, spaces.userSpace.header
      ensures Valid() && Takes(old(Left()), Left(), program)
      ensures Enabled(old(ring.Abstract()), Schedule.Spawn(job, entry, UserPage(UserPages(program)), manager))
      ensures ring.Abstract() ==
              Step(old(ring.Abstract()), Schedule.Spawn(job, entry, UserPage(UserPages(program)), manager))
      ensures manager in roots && roots[manager] !in old(spaces.spaces)
      ensures UserMapped(spaces.tables.mem, roots[manager], UserPages(program))
      ensures Loaded(ram, spaces.tables.mem, roots[manager], program, |program|)
      ensures Kept(old(spaces.tables.mem), spaces.tables.mem, old(spaces.spaces))
      ensures ContentsKept(old(ram), old(spaces.tables.mem), ram, spaces.tables.mem, old(spaces.spaces))
      ensures forall m :: m in old(ring.managers) ==> roots[m] == old(roots[m])
    {
      var stack;
      manager, stack := Prepare(program);
      job := StartJob(entry, stack, manager);
    }

    /** The job itself. */
    method StartJob(entry: nat, stack: nat, manager: nat) returns (job: nat)
      requires Apart(ring, spaces) && ring.Valid() && ring.Backed() && spaces.Valid() && Schedule.WellFormed(ring.Abstract())
      requires |ring.slab.Live()| < ring.slab.maxStore
      requires ring.heap.freeBlocks + |ring.ring| + 1 == capacity
      requires manager !in ring.managers && IsBlock(ring.heap.start, ring.heap.Live(), ring.reserved, manager)
      requires Separate(roots, ring.managers + {manager}, spaces.spaces)
      modifies ring, ring.slab.header
      ensures Valid() && Left() == old(Left()).(slots := old(Left()).slots - 1)
      ensures Enabled(old(ring.Abstract()), Schedule.Spawn(job, entry, stack, manager))
      ensures ring.Abstract() == Step(old(ring.Abstract()), Schedule.Spawn(job, entry, stack, manager))
    {
      job := ring.SpawnJob(entry, stack, manager);
      spaces.Untouched();
    }

    /** All that comes before the job itself. */
    method Prepare(program: seq<Disk.Byte>) returns (manager: nat, stack: nat)
      requires Valid() && Fits(Left(), program)
      modifies this, ring`active, ring.heap, ring.heap.table
      modifies spaces, spaces.tables, spaces.tables.slab.header, spaces.userSpace.header
      ensures ring.Valid() && ring.Backed() && spaces.Valid() && ring.Abstract() == old(ring.Abstract())
      ensures manager !in ring.managers && IsBlock(ring.heap.start, ring.heap.Live(), ring.reserved, manager)
      ensures Takes(old(Left()), Left().(slots := old(Left()).slots - 1), program)
      ensures stack == UserPage(UserPages(program))
      ensures Separate(roots, ring.managers + {manager}, spaces.spaces)
      ensures roots[manager] !in old(spaces.spaces)
      ensures UserMapped(spaces.tables.mem, roots[manager], UserPages(program))
      ensures Loaded(ram, spaces.tables.mem, roots[manager], program, |program|)
      ensures Kept(old(spaces.tables.mem), spaces.tables.mem, old(spaces.spaces))
      ensures ContentsKept(old(ram), old(spaces.tables.mem), ram, spaces.tables.mem, old(spaces.spaces))
      ensures forall m :: m in ring.managers ==> roots[m] == old(roots[m])
    {
      manager := ring.AllocateManager();
      stack := FillSpace(program, manager);
    }

    /** The space of a new manager with the program in it. */
    method FillSpace(program: seq<Disk.Byte>, manager: nat) returns (stack: nat)
      requires ring.Valid() && spaces.Valid()
      requires Separate(roots, ring.managers, spaces.spaces) && manager !in ring.managers
      requires |program| + 4096 < 0x8000_0000 && UserPages(program) <= spaces.FreeFrames()
      requires 1 + TablesFor(UserPages(program)) <= spaces.tables.Unused()
      requires Apart(ring, spaces)
      modifies this, ring`active, spaces, spaces.tables, spaces.tables.slab.header, spaces.userSpace.header
      ensures ring.Valid() && ring.Abstract() == old(ring.Abstract()) && spaces.Valid()
      ensures spaces.FreeFrames() == old(spaces.FreeFrames()) - UserPages(program)
      ensures spaces.tables.Unused() >= old(spaces.tables.Unused()) - 1 - TablesFor(UserPages(program))
      ensures stack == UserPage(UserPages(program))
      ensures Separate(roots, ring.managers + {manager}, spaces.spaces)
      ensures roots[manager] !in old(spaces.spaces)
      ensures UserMapped(spaces.tables.mem, roots[manager], UserPages(program))
      ensures Loaded(ram, spaces.tables.mem, roots[manager], program, |program|)
      ensures Kept(old(spaces.tables.mem), spaces.tables.mem, old(spaces.spaces))
      ensures ContentsKept(old(ram), old(spaces.tables.mem), ram, spaces.tables.mem, old(spaces.spaces))
      ensures forall m :: m in ring.managers ==> roots[m] == old(roots[m])
    {
      ghost var m0, before := spaces.tables.mem, spaces.spaces;
      stack := NewSpace(|program|, manager);
      LoadProgram(program, manager);
      KeptContents(old(ram), m0, ram, spaces.tables.mem, before, spaces.spaces - {roots[manager]});
    }

    /** The space of a new manager, and the top of its mapped user area. */
    method NewSpace(size: nat, manager: nat) returns (stack: nat)
      requires spaces.Valid() && Separate(roots, ring.managers, spaces.spaces) && manager !in ring.managers
      requires size + 4096 < 0x8000_0000 && PagesFor(size + 4096) <= spaces.FreeFrames()
      requires 1 + TablesFor(PagesFor(size + 4096)) <= spaces.tables.Unused()
      modifies this`roots, spaces, spaces.tables, spaces.tables.slab.header, spaces.userSpace.header
      ensures spaces.Valid() && stack == UserPage(PagesFor(size + 4096))
      ensures spaces.FreeFrames() == old(spaces.FreeFrames()) - PagesFor(size + 4096)
      ensures spaces.tables.Unused() >= old(spaces.tables.Unused()) - 1 - TablesFor(PagesFor(size + 4096))
      ensures Separate(roots, ring.managers + {manager}, spaces.spaces)
      ensures roots[manager] !in old(spaces.spaces) && spaces.spaces == old(spaces.spaces) + {roots[manager]}
      ensures UserMapped(spaces.tables.mem, roots[manager], PagesFor(size + 4096))
      ensures Kept(old(spaces.tables.mem), spaces.tables.mem, old(spaces.spaces))
      ensures forall m :: m in ring.managers ==> roots[m] == old(roots[m])
    {
      var root, allocatedSize := spaces.CreatePaging(size);
      roots := roots[manager := root];
      stack := 0x8000_0000 + allocatedSize;
    }

    /** Loads the program while the new job's manager is in use, then puts back the one before. */
    method LoadProgram(program: seq<Disk.Byte>, manager: nat)
      requires ring.Valid() && spaces.Valid() && manager in roots && roots[manager] in spaces.spaces
      requires UserMapped(spaces.tables.mem, roots[manager], UserPages(program))
      requires |program| + 4096 < 0x8000_0000
      modifies this`ram, ring`active
      ensures ring.Valid() && ring.Abstract() == old(ring.Abstract())
      ensures Loaded(ram, spaces.tables.mem, roots[manager], program, |program|)
      ensures ContentsKept(old(ram), spaces.tables.mem, ram, spaces.tables.mem, spaces.spaces - {roots[manager]})
    {
      var previous := ring.Apply(manager);
      ram := CopyProgram(ram, spaces.tables.mem, roots[ring.active], program, UserPages(program),
                         spaces.spaces, spaces.frames);
      var _ := ring.Apply(previous);
    }

    /** A tick changes no translation, and every remaining job keeps its space. */
    method OnTick(interrupted: Cpu)
      requires Valid() && Enabled(ring.Abstract(), Tick(interrupted))
      modifies ring, ring.slab.header, ring.heap, ring.heap.table
      ensures Valid() && ring.Abstract() == Step(old(ring.Abstract()), Tick(interrupted))
    {
      ghost var managers := ring.managers;
      ring.TickHandler(interrupted);
      FewerManagers(roots, managers, ring.managers, spaces.spaces);
      assert spaces.Valid();
    }

    method OnTerminate()
      requires Valid()
      modifies ring
      ensures Valid() && ring.Abstract() == Step(old(ring.Abstract()), Terminate)
    {
      ring.TerminateCurrent();
    }
  }
}
