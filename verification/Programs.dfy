/** Starting a list of programs: from a zero heap table to one job for each, all loaded and isolated. */
module Programs {
  import opened Wrappers
  import opened Bits
  import opened Descriptors
  import opened Walk
  import opened AddressSpaces
  import opened Schedule
  import opened Jobs
  import opened Kernel
  import opened Start
  import Heaps
  import Disk

  datatype Program = Program(bytes: seq<Disk.Byte>, entry: nat)

  // ---------------------------------------------------------------- what a list of programs needs

  function PagesOf(ps: seq<Program>): nat {
    if ps == [] then 0 else UserPages(ps[0].bytes) + PagesOf(ps[1..])
  }

  function TablesOf(ps: seq<Program>): nat {
    if ps == [] then 0 else 1 + TablesFor(UserPages(ps[0].bytes)) + TablesOf(ps[1..])
  }

  /** There is enough left for a job for each program. */
  predicate AllFit(r: Room, ps: seq<Program>) {
    && PagesOf(ps) <= r.frames && TablesOf(ps) <= r.tables && |ps| <= r.slots && |ps| <= r.blocks
    && forall p :: p in ps ==> |p.bytes| + 4096 < 0x8000_0000
  }

  lemma RestFits(r: Room, r': Room, ps: seq<Program>)
    requires ps != [] && AllFit(r, ps)
    ensures Fits(r, ps[0].bytes)
    ensures Takes(r, r', ps[0].bytes) ==> AllFit(r', ps[1..])
  {
  }

  /** Three tables for each program, and one more for every 512 pages, are enough. */
  lemma {:induction false} FewTablesOf(ps: seq<Program>)
    requires PagesOf(ps) <= 0x4_0000
    ensures 0x200 * TablesOf(ps) <= 0x600 * |ps| + PagesOf(ps)
  {
    if ps != [] {
      FewTables(UserPages(ps[0].bytes));
      FewTablesOf(ps[1..]);
    }
  }

  lemma {:induction false} SmallPrograms(ps: seq<Program>, p: Program)
    requires p in ps
    ensures |p.bytes| + 4096 <= 0x1000 * PagesOf(ps)
  {
    if p != ps[0] {
      SmallPrograms(ps[1..], p);
    }
  }

  /** The kernel's tables, job slots and heap are enough for 128 programs whose pages fit its frames. */
  lemma EnoughRoom(r: Room, ps: seq<Program>)
    requires 0 < |ps| <= MAX_JOBS && PagesOf(ps) <= USER_FRAMES
    requires FirstRoom(r, ps[0].bytes)
    ensures AllFit(r, ps[1..])
  {
    FewTablesOf(ps);
    forall p | p in ps[1..]
      ensures |p.bytes| + 4096 < 0x8000_0000
    {
      SmallPrograms(ps[1..], p);
    }
  }

  // ---------------------------------------------------------------- loaded programs

  /** Each of the first `n` programs is loaded in the space of a manager of its own. */
  ghost predicate AllLoaded(ram: Ram, mem: Memory, roots: map<nat, nat>, live: set<nat>,
                            managers: seq<nat>, ps: seq<Program>)
  {
    && |managers| <= |ps|
    && (forall k: nat :: k < |managers| ==>
          && managers[k] in live && managers[k] in roots
          && Loaded(ram, mem, roots[managers[k]], ps[k].bytes, |ps[k].bytes|))
    && (forall j: nat, k: nat :: j < k < |managers| ==> managers[j] != managers[k])
  }

  lemma StillLoaded(ram0: Ram, m0: Memory, ram1: Ram, m1: Memory, spaces: set<nat>, r: nat, program: seq<Disk.Byte>)
    requires ContentsKept(ram0, m0, ram1, m1, spaces) && r in spaces && |program| + 4096 < 0x8000_0000
    requires Loaded(ram0, m0, r, program, |program|)
    ensures Loaded(ram1, m1, r, program, |program|)
  {
    forall k: nat | k < |program|
      ensures ByteOf(ram1, m1, r, 0x8000_0000 + k) == Some(program[k])
    {
      assert ByteOf(ram0, m0, r, 0x8000_0000 + k) == Some(program[k]);
    }
  }

  /** One more program: those loaded before stay as they are. */
  lemma OneMoreLoaded(ram0: Ram, m0: Memory, roots0: map<nat, nat>, live: set<nat>, spaces: set<nat>,
                      ram1: Ram, m1: Memory, roots1: map<nat, nat>, managers: seq<nat>, m: nat, ps: seq<Program>)
    requires AllLoaded(ram0, m0, roots0, live, managers, ps) && |managers| < |ps|
    requires forall p :: p in ps ==> |p.bytes| + 4096 < 0x8000_0000
    requires forall k :: k in live ==> k in roots0 && roots0[k] in spaces && k in roots1 && roots1[k] == roots0[k]
    requires ContentsKept(ram0, m0, ram1, m1, spaces)
    requires m !in live && m in roots1
    requires var p := ps[|managers|].bytes; Loaded(ram1, m1, roots1[m], p, |p|)
    ensures AllLoaded(ram1, m1, roots1, live + {m}, managers + [m], ps)
  {
    var all := managers + [m];
    forall k: nat | k < |all|
      ensures all[k] in live + {m} && all[k] in roots1
      ensures Loaded(ram1, m1, roots1[all[k]], ps[k].bytes, |ps[k].bytes|)
    {
      if k < |managers| {
        assert all[k] == managers[k] && ps[k] in ps;
        StillLoaded(ram0, m0, ram1, m1, spaces, roots0[managers[k]], ps[k].bytes);
      }
    }
  }

  lemma FirstLoaded(ram: Ram, mem: Memory, roots: map<nat, nat>, live: set<nat>, m: nat, ps: seq<Program>)
    requires ps != [] && m in live && m in roots && Loaded(ram, mem, roots[m], ps[0].bytes, |ps[0].bytes|)
    ensures AllLoaded(ram, mem, roots, live, [m], ps)
  {
  }

  // ---------------------------------------------------------------- spawning them

  /** The event that starts a program. */
  predicate Starts(e: Schedule.Event, p: Program, manager: nat) {
    e.Spawn? && e.entry == p.entry && e.stack == UserPage(UserPages(p.bytes)) && e.paging == manager
  }

  /** Spawns the next program of a list. */
  method SpawnNext(system: System, ps: seq<Program>, managers: seq<nat>)
    returns (manager: nat, ghost e: Schedule.Event)
    requires system.Valid() && |managers| < |ps| && AllFit(system.Left(), ps[|managers|..])
    requires forall p :: p in ps ==> |p.bytes| + 4096 < 0x8000_0000
    requires AllLoaded(system.ram, system.spaces.tables.mem, system.roots, system.ring.managers, managers, ps)
    modifies system, system.ring, system.ring.slab.header, system.ring.heap, system.ring.heap.table
    modifies system.spaces, system.spaces.tables, system.spaces.tables.slab.header, system.spaces.userSpace.header
    ensures system.Valid() && AllFit(system.Left(), ps[|managers| + 1..])
    ensures AllLoaded(system.ram, system.spaces.tables.mem, system.roots, system.ring.managers, managers + [manager], ps)
    ensures Enabled(old(system.ring.Abstract()), e) && Starts(e, ps[|managers|], manager)
    ensures system.ring.Abstract() == Step(old(system.ring.Abstract()), e)
  {
    var p := ps[|managers|];
    ghost var r0, rest := system.Left(), ps[|managers|..];
    ghost var ram0, m0, roots0, spaces0 := system.ram, system.spaces.tables.mem, system.roots, system.spaces.spaces;
    ghost var live := system.ring.managers;
    RestFits(r0, r0, rest);
    var job;
    job, manager := system.Spawn(p.bytes, p.entry);
    e := Schedule.Spawn(job, p.entry, UserPage(UserPages(p.bytes)), manager);
    RestFits(r0, system.Left(), rest);
    assert rest[1..] == ps[|managers| + 1..];
    assert system.ring.Abstract().managers == live + {manager};
    OneMoreLoaded(ram0, m0, roots0, live, spaces0, system.ram, system.spaces.tables.mem, system.roots,
                  managers, manager, ps);
  }

  /** Spawns a list of programs: one RUNNING job for each, behind the current one. The events `es` are a run
      of the scheduler, so all that is proved about runs holds of it. */
  method SpawnAll(system: System, first: nat, ps: seq<Program>)
    returns (managers: seq<nat>, ghost es: seq<Schedule.Event>)
    requires system.Valid() && ps != [] && AllFit(system.Left(), ps[1..])
    requires forall p :: p in ps ==> |p.bytes| + 4096 < 0x8000_0000
    requires AllLoaded(system.ram, system.spaces.tables.mem, system.roots, system.ring.managers, [first], ps)
    modifies system, system.ring, system.ring.slab.header, system.ring.heap, system.ring.heap.table
    modifies system.spaces, system.spaces.tables, system.spaces.tables.slab.header, system.spaces.userSpace.header
    ensures system.Valid() && |managers| == |ps| && managers[0] == first
    ensures AllLoaded(system.ram, system.spaces.tables.mem, system.roots, system.ring.managers, managers, ps)
    ensures SpawnRun(old(system.ring.Abstract()), es, managers, ps)
    ensures system.ring.Abstract() == Run(old(system.ring.Abstract()), es)
  {
    managers, es := [first], [];
    ghost var s0 := system.ring.Abstract();
    while |managers| < |ps|
      invariant system.Valid() && 1 <= |managers| <= |ps| && managers[0] == first
      invariant AllFit(system.Left(), ps[|managers|..])
      invariant AllLoaded(system.ram, system.spaces.tables.mem, system.roots, system.ring.managers, managers, ps)
      invariant SpawnRun(s0, es, managers, ps) && system.ring.Abstract() == Run(s0, es)
      decreases |ps| - |managers|
    {
      ghost var before := system.ring.Abstract();
      var manager;
      ghost var e;
      manager, e := SpawnNext(system, ps, managers);
      OneMoreSpawn(s0, es, managers, ps, e, manager, system.ring.Abstract());
      managers, es := managers + [manager], es + [e];
    }
  }

  /** A run that starts the programs after the first, in their order. */
  ghost predicate SpawnRun(s: State, es: seq<Schedule.Event>, managers: seq<nat>, ps: seq<Program>)
    requires Schedule.WellFormed(s)
  {
    && Runs(s, es) && |es| + 1 == |managers| <= |ps|
    && forall k: nat :: k < |es| ==> Starts(es[k], ps[k + 1], managers[k + 1])
  }

  lemma OneMoreSpawn(s: State, es: seq<Schedule.Event>, managers: seq<nat>, ps: seq<Program>,
                     e: Schedule.Event, manager: nat, after: State)
    requires Schedule.WellFormed(s) && SpawnRun(s, es, managers, ps) && |managers| < |ps|
    requires Enabled(Run(s, es), e) && after == Step(Run(s, es), e) && Starts(e, ps[|managers|], manager)
    ensures SpawnRun(s, es + [e], managers + [manager], ps) && Run(s, es + [e]) == after
  {
    RunOneMore(s, es, e, after);
  }

  /** A run that starts jobs only has one more of them for every event. */
  lemma {:induction false} SpawnRunJobs(s: State, es: seq<Schedule.Event>)
    requires Schedule.WellFormed(s) && Runs(s, es) && forall k :: 0 <= k < |es| ==> es[k].Spawn?
    ensures |Run(s, es).jobs| == |s.jobs| + |es|
    decreases |es|
  {
    if es != [] {
      SpawnRunJobs(s, es[..|es| - 1]);
    }
  }

  // ---------------------------------------------------------------- isolation of all of them

  /** User code in space `r` reaches the frame with number `frame`. */
  predicate UserReaches(mem: Memory, r: nat, v: nat, frame: nat) {
    v < VA_LIMIT && var t := Translate(mem, 1, r, v); t.Some? && t.value.unprivileged && Page(t.value.pa) == frame
  }

  /** No frame is reached from the spaces of two of the managers. */
  ghost predicate NoneShared(mem: Memory, roots: map<nat, nat>, managers: seq<nat>)
    requires forall k: nat :: k < |managers| ==> managers[k] in roots
  {
    forall j: nat, k: nat, v, u, frame :: j < k < |managers| && UserReaches(mem, roots[managers[j]], v, frame) ==>
      !UserReaches(mem, roots[managers[k]], u, frame)
  }

  lemma LoadedApart(ram: Ram, mem: Memory, roots: map<nat, nat>, live: set<nat>, managers: seq<nat>, ps: seq<Program>,
                    spaces: set<nat>, frames: map<nat, Use>)
    requires AllLoaded(ram, mem, roots, live, managers, ps)
    requires Separate(roots, live, spaces) && Isolated(mem, spaces, frames)
    ensures NoneShared(mem, roots, managers)
  {
    forall j: nat, k: nat, v, u, frame | j < k < |managers| && UserReaches(mem, roots[managers[j]], v, frame)
      ensures !UserReaches(mem, roots[managers[k]], u, frame)
    {
      if UserReaches(mem, roots[managers[k]], u, frame) {
        NoSharedFrame(mem, spaces, frames, roots[managers[j]], v, roots[managers[k]], u);
      }
    }
  }

  // ---------------------------------------------------------------- from power on

  /** Any list of at most 128 programs whose pages fit the 4096 user frames is started: there is one job
      for each, every program is in its own space, and no frame is shared. */
  method StartPrograms(memory: Memory, tags: array<Heaps.Tag>, cpu: Cpu, kernelManager: nat, ps: seq<Program>)
    returns (system: System, managers: seq<nat>)
    requires tags.Length == 8 * HEAP_BLOCKS && |cpu.frame| == 32
    requires forall k :: 1 <= k < HEAP_BLOCKS ==> tags[k] == Heaps.FREE
    requires 0 < |ps| <= 128 && PagesOf(ps) <= 4096
    modifies tags
    ensures system.Valid() && |system.ring.Jobs()| == |ps| == |managers|
    ensures AllLoaded(system.ram, system.spaces.tables.mem, system.roots, system.ring.managers, managers, ps)
    ensures NoneShared(system.spaces.tables.mem, system.roots, managers)
  {
    var job, first;
    system, job, first := StartKernel(memory, tags, cpu, kernelManager, ps[0].bytes, ps[0].entry);
    EnoughRoom(system.Left(), ps);
    FirstLoaded(system.ram, system.spaces.tables.mem, system.roots, system.ring.managers, first, ps);
    forall p | p in ps
      ensures |p.bytes| + 4096 < 0x8000_0000
    {
      SmallPrograms(ps, p);
    }
    ghost var s0 := system.ring.Abstract();
    ghost var es;
    managers, es := SpawnAll(system, first, ps);
    SpawnRunJobs(s0, es);
    LoadedApart(system.ram, system.spaces.tables.mem, system.roots, system.ring.managers, managers, ps,
                system.spaces.spaces, system.spaces.frames);
  }
}
