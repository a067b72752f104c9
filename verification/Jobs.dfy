/** The circular list of jobs of kernel/mp/job.c and the tick of kernel/mp/sched.c.

    Job records live in slots of a slab and are linked by slot addresses. A freed record stays in
    memory; that nothing reaches it any more is part of what is proved. */
module Jobs {
  import opened Slabs
  import opened Schedule
  import Heaps

  datatype Record = Record(status: Status, context: Context, paging: nat, next: nat)

  type Records = map<nat, Record>

  /** The address after position `i` of the ring. */
  function NextOf(ring: seq<nat>, i: nat): nat
    requires i < |ring|
  {
    if i + 1 < |ring| then ring[i + 1] else ring[0]
  }

  ghost predicate LinkAt(mem: Records, ring: seq<nat>, i: nat)
    requires i < |ring|
  {
    ring[i] in mem && mem[ring[i]].next == NextOf(ring, i)
  }

  /** The `next` pointers visit exactly `ring`, once each, and come back to its start. */
  ghost predicate Linked(mem: Records, ring: seq<nat>) {
    && (forall i: nat :: i < |ring| ==> ring[i] in mem)
    && (forall i: nat :: i < |ring| ==> LinkAt(mem, ring, i))
    && (forall i: nat, j: nat :: i < j < |ring| ==> ring[i] != ring[j])
  }

  function JobAt(mem: Records, a: nat): Job
    requires a in mem
  {
    Job(a, mem[a].status, mem[a].context, mem[a].paging)
  }

  ghost function JobsOf(mem: Records, ring: seq<nat>): (r: seq<Job>)
    requires forall i: nat :: i < |ring| ==> ring[i] in mem
    ensures |r| == |ring| && forall i: nat :: i < |ring| ==> r[i] == JobAt(mem, ring[i])
  {
    seq(|ring|, i requires 0 <= i < |ring| => JobAt(mem, ring[i]))
  }

  lemma OtherIds(mem: Records, ring: seq<nat>, a: nat)
    requires a !in ring && forall i: nat :: i < |ring| ==> ring[i] in mem
    ensures forall j :: j in JobsOf(mem, ring) ==> j.id != a
  {
  }

  /** The slots on the ring. */
  ghost function Members(ring: seq<nat>): set<nat> { set a | a in ring }

  lemma LinkedRotated(mem: Records, ring: seq<nat>)
    requires Linked(mem, ring) && ring != []
    ensures Linked(mem, Rotated(ring)) && Members(Rotated(ring)) == Members(ring)
    ensures JobsOf(mem, Rotated(ring)) == Rotated(JobsOf(mem, ring))
  {
    var t := Rotated(ring);
    forall i: nat | i < |t|
      ensures LinkAt(mem, t, i)
    {
      assert LinkAt(mem, ring, if i + 1 < |ring| then i + 1 else 0);
      assert t[i] == if i + 1 < |ring| then ring[i + 1] else ring[0];
    }
    forall a | a in ring
      ensures a in t
    {
      var i :| 0 <= i < |ring| && ring[i] == a;
      assert t[if i == 0 then |ring| - 1 else i - 1] == a;
    }
  }

  /** The records after linking `r` at `a` behind the current job. */
  function InsertedRecords(mem: Records, current: nat, a: nat, r: Record): Records
    requires current in mem
  {
    mem[a := r][current := mem[current].(next := a)]
  }

  lemma LinkedInserted(mem: Records, ring: seq<nat>, a: nat, r: Record)
    requires Linked(mem, ring) && ring != [] && a !in ring && r.next == NextOf(ring, 0)
    ensures Linked(InsertedRecords(mem, ring[0], a, r), [ring[0], a] + ring[1..])
  {
    var mem', ring' := InsertedRecords(mem, ring[0], a, r), [ring[0], a] + ring[1..];
    forall i: nat | i < |ring'|
      ensures LinkAt(mem', ring', i)
    {
      if i >= 2 {
        assert LinkAt(mem, ring, i - 1) && ring'[i] == ring[i - 1];
      }
    }
  }

  lemma JobsInserted(mem: Records, ring: seq<nat>, a: nat, r: Record)
    requires Linked(mem, ring) && ring != [] && a !in ring && r.next == NextOf(ring, 0)
    ensures var mem', ring' := InsertedRecords(mem, ring[0], a, r), [ring[0], a] + ring[1..];
            && Members(ring') == Members(ring) + {a}
            && (forall i: nat :: i < |ring'| ==> ring'[i] in mem')
            && JobsOf(mem', ring') == Inserted(JobsOf(mem, ring), Job(a, r.status, r.context, r.paging))
  {
    var mem', ring' := InsertedRecords(mem, ring[0], a, r), [ring[0], a] + ring[1..];
    var jobs := JobsOf(mem, ring);
    forall i: nat | i < |ring'|
      ensures ring'[i] in mem'
      ensures JobAt(mem', ring'[i]) == Inserted(jobs, Job(a, r.status, r.context, r.paging))[i]
    {
      if i >= 2 {
        assert ring'[i] == ring[i - 1];
      }
    }
    assert ring == [ring[0]] + ring[1..];
  }

  function Without<T>(s: seq<T>, k: nat): seq<T>
    requires k < |s|
  {
    s[..k] + s[k + 1..]
  }

  /** The position before `k` on a ring of length `n`. */
  function Before(n: nat, k: nat): nat
    requires k < n
  {
    if k == 0 then n - 1 else k - 1
  }

  /** The records after position `k` is unlinked: its predecessor takes over its `next`. */
  function UnlinkedRecords(mem: Records, ring: seq<nat>, k: nat): Records
    requires k < |ring| && forall i: nat :: i < |ring| ==> ring[i] in mem
  {
    var p := ring[Before(|ring|, k)];
    mem[p := mem[p].(next := mem[ring[k]].next)]
  }

  lemma LinkedWithout(mem: Records, ring: seq<nat>, k: nat)
    requires Linked(mem, ring) && |ring| >= 2 && k < |ring|
    ensures Linked(UnlinkedRecords(mem, ring, k), Without(ring, k))
  {
    var mem', ring' := UnlinkedRecords(mem, ring, k), Without(ring, k);
    forall i: nat | i < |ring'|
      ensures LinkAt(mem', ring', i)
    {
      var j := if i < k then i else i + 1;
      assert LinkAt(mem, ring, j) && LinkAt(mem, ring, k);
      assert ring'[i] == ring[j];
    }
    forall i: nat, j: nat | i < j < |ring'|
      ensures ring'[i] != ring'[j]
    {
      assert ring'[i] == ring[if i < k then i else i + 1] && ring'[j] == ring[if j < k then j else j + 1];
    }
  }

  lemma JobsWithout(mem: Records, ring: seq<nat>, k: nat)
    requires Linked(mem, ring) && |ring| >= 2 && k < |ring|
    ensures var mem', ring' := UnlinkedRecords(mem, ring, k), Without(ring, k);
            && Members(ring') == Members(ring) - {ring[k]}
            && (forall i: nat :: i < |ring'| ==> ring'[i] in mem')
            && JobsOf(mem', ring') == Without(JobsOf(mem, ring), k)
  {
    var mem', ring' := UnlinkedRecords(mem, ring, k), Without(ring, k);
    forall i: nat | i < |ring'|
      ensures ring'[i] in mem' && ring'[i] != ring[k]
      ensures JobAt(mem', ring'[i]) == Without(JobsOf(mem, ring), k)[i]
    {
      assert ring'[i] == ring[if i < k then i else i + 1];
    }
    assert ring == ring[..k] + [ring[k]] + ring[k + 1..];
  }

  /** A single job is linked to itself. */
  lemma LinkedAlone(mem: Records, a: nat)
    requires a in mem && mem[a].next == a
    ensures Linked(mem, [a]) && JobsOf(mem, [a]) == [JobAt(mem, a)] && Members([a]) == {a}
  {
    assert LinkAt(mem, [a], 0);
  }

  // ---------------------------------------------------------------- saving and restoring

  method SaveContext(cpu: Cpu) returns (c: Context)
    requires |cpu.frame| == 32
    ensures c == Saved(cpu)
    ensures c.pc == cpu.elr && c.sp == cpu.sp && |c.x| == 31 && forall i :: 0 <= i < 31 ==> c.x[i] == cpu.frame[30 - i]
  {
    var x: seq<nat> := [];
    for i := 0 to 31
      invariant |x| == i && forall k :: 0 <= k < i ==> x[k] == cpu.frame[30 - k]
    {
      x := x + [cpu.frame[30 - i]];
    }
    c := Context(x, cpu.elr, cpu.sp);
    assert x == Saved(cpu).x;
  }

  method RestoreContext(cpu: Cpu, c: Context) returns (r: Cpu)
    requires |cpu.frame| == 32 && |c.x| == 31
    ensures r == Restored(cpu, c)
    ensures r.elr == c.pc && r.sp == c.sp && |r.frame| == 32 && r.frame[31] == cpu.frame[31]
    ensures forall i :: 0 <= i < 31 ==> r.frame[30 - i] == c.x[i]
  {
    var frame := cpu.frame;
    for i := 0 to 31
      invariant |frame| == 32 && frame[31] == cpu.frame[31]
      invariant forall k :: 0 <= k < i ==> frame[30 - k] == c.x[k]
    {
      frame := frame[30 - i := c.x[i]];
    }
    r := Cpu(frame, c.pc, c.sp);
    assert forall k :: 0 <= k < 31 ==> frame[k] == frame[30 - (30 - k)];
    assert frame == Restored(cpu, c).frame;
  }

  // ---------------------------------------------------------------- the ring in memory

  /** `m` is the address of a heap block that is a live region, but none of the reserved ones. */
  predicate IsBlock(start: nat, live: map<nat, nat>, reserved: map<nat, nat>, m: nat) {
    && m >= start && (m - start) % 4096 == 0
    && var b := (m - start) / 4096;
       b in live && live[b] == b + 1 && b !in reserved
  }

  /** The reserved regions are live. */
  predicate Reserves(live: map<nat, nat>, reserved: map<nat, nat>) {
    forall b :: b in reserved ==> b in live && live[b] == reserved[b]
  }

  /** Different live regions do not overlap. */
  lemma RegionsApart(t: seq<Heaps.Tag>, n: nat, i: nat, j: nat)
    requires Heaps.Runs(t, n) && i in Heaps.Regions(t, n) && j in Heaps.Regions(t, n) && i != j
    ensures Heaps.Regions(t, n)[i] <= j || Heaps.Regions(t, n)[j] <= i
  {
    if i < j {
      Heaps.RegionsDisjoint(t, n, i, j);
    } else {
      Heaps.RegionsDisjoint(t, n, j, i);
    }
  }

  /** The addresses from `a` to `end` lie in one reserved region, which begins at `a`. */
  predicate IsZone(start: nat, reserved: map<nat, nat>, a: nat, end: nat) {
    && a >= start && (a - start) % 4096 == 0
    && var b := (a - start) / 4096;
       b in reserved && end <= start + 4096 * reserved[b]
  }

  predicate OutsideZone(m: nat, a: nat, end: nat) { m + 4096 <= a || end <= m }

  /** A block that is not reserved lies outside every reserved zone. */
  lemma BlockOutsideZone(start: nat, t: seq<Heaps.Tag>, n: nat, reserved: map<nat, nat>, m: nat, a: nat, end: nat)
    requires Heaps.Runs(t, n) && Reserves(Heaps.Regions(t, n), reserved)
    requires IsBlock(start, Heaps.Regions(t, n), reserved, m) && IsZone(start, reserved, a, end)
    ensures OutsideZone(m, a, end)
  {
    RegionsApart(t, n, (m - start) / 4096, (a - start) / 4096);
  }

  /** Freeing one of the managers leaves the others and the reserved regions. */
  lemma OtherBlocks(start: nat, live: map<nat, nat>, reserved: map<nat, nat>, managers: set<nat>, p: nat)
    requires Reserves(live, reserved) && p in managers
    requires forall m :: m in managers ==> IsBlock(start, live, reserved, m)
    ensures var live' := live - {(p - start) / 4096};
            && Reserves(live', reserved)
            && forall m :: m in managers - {p} ==> IsBlock(start, live', reserved, m)
  {
    assert IsBlock(start, live, reserved, p);
    forall m | m in managers - {p}
      ensures IsBlock(start, live - {(p - start) / 4096}, reserved, m)
    {
      assert IsBlock(start, live, reserved, m);
    }
  }

  /** Passing a terminated head: it is dropped, and its manager, still allocated, is freed. */
  lemma ReapedHead(rest: seq<Job>, i: nat, m0: set<nat>)
    requires i < |rest| && rest[i].status == TERMINATED && Distinct(rest) && rest[i].paging in m0
    ensures Passed(rest, i) != [] && Passed(rest, i)[0] == rest[i]
    ensures Passed(rest, i + 1) == Without(Passed(rest, i), 0)
    ensures rest[i].paging in m0 - ReapedBelow(rest, i)
    ensures m0 - ReapedBelow(rest, i + 1) == m0 - ReapedBelow(rest, i) - {rest[i].paging}
  {
    PassedStep(rest, i);
    ReapedStep(rest, i);
    ReapedBelowAreGone(rest, i, rest[i]);
  }

  /** A RUNNING job in slot `id` that starts at `entry` with the given stack and cleared registers. */
  predicate NewJob(j: Job, id: nat, entry: nat, stack: nat, paging: nat) {
    j.id == id && j.status == RUNNING && j.paging == paging && Unstarted(j.context, entry, stack)
  }

  class JobRing {
    const slab: Slab
    /** The kernel heap behind kalloc and kfree. */
    const heap: Heaps.Heap
    /** The heap regions that were live before there were jobs, among them the zones of the slabs. */
    ghost const reserved: map<nat, nat>
    var mem: Records
    /** The current job, 0 before there is one. */
    var current: nat
    /** current_paging_manager. */
    var active: nat
    var cpu: Cpu
    /** The slots in the order of their `next` pointers, from the current job. */
    ghost var ring: seq<nat>
    /** The paging managers of the jobs. */
    ghost var managers: set<nat>

    /** Every paging manager in use is a live block of the heap, and the reserved regions stay live. */
    ghost predicate Backed()
      reads this, heap, heap.table
    {
      && this as object != heap as object && this as object != heap.table as object
      && heap.table as object != slab.header as object
      && heap.Valid() && Reserves(heap.Live(), reserved)
      && forall m :: m in managers ==> IsBlock(heap.start, heap.Live(), reserved, m)
    }

    ghost predicate Valid()
      reads this, slab.header
    {
      && slab.Valid() && slab.Base() > 0
      && Linked(mem, ring)
      && Members(ring) == slab.LiveAddresses()
      && current == if ring == [] then 0 else ring[0]
    }

    ghost function Jobs(): seq<Job>
      requires Valid()
      reads this, slab.header
    {
      JobsOf(mem, ring)
    }

    /** The abstract state. */
    ghost function Abstract(): State
      requires Valid()
      reads this, slab.header
    {
      State(Jobs(), active, managers, cpu)
    }

    constructor (slab: Slab, heap: Heaps.Heap, kernelManager: nat, cpu: Cpu)
      requires slab.Valid() && slab.Base() > 0 && slab.Live() == {} && heap.Valid()
      requires heap.table as object != slab.header as object
      ensures Valid() && Backed() && ring == [] && active == kernelManager && managers == {}
      ensures this.cpu == cpu && this.slab == slab && this.heap == heap && reserved == heap.Live()
    {
      this.heap, this.reserved := heap, heap.Live();
      this.slab, this.mem, this.current, this.ring := slab, map[], 0, [];
      this.active, this.managers, this.cpu := kernelManager, {}, cpu;
    }

    /** Switches the paging manager and says which one was in use. */
    method Apply(manager: nat) returns (previous: nat)
      requires Valid()
      modifies this`active
      ensures previous == old(active) && active == manager
      ensures Valid() && Jobs() == old(Jobs())
    {
      previous := active;
      active := manager;
    }

    /** The current job is NULL only while the ring is empty: no slot has address 0. */
    lemma CurrentIsNull()
      requires Valid()
      ensures current == 0 <==> ring == []
    {
      if ring != [] {
        assert ring[0] in Members(ring);
        AddressInArea(slab.Base(), slab.objectSize, slab.Live(), slab.maxStore, ring[0]);
      }
    }

    /** A new job in a free slot, linked in behind the current one. */
    method Create(entry: nat, stack: nat, paging: nat) returns (job: nat)
      requires Valid() && |slab.Live()| < slab.maxStore
      modifies this`mem, this`current, this`ring, slab.header
      ensures Valid() && job !in old(ring) && |ring| == |old(ring)| + 1 && |slab.Live()| == |old(slab.Live())| + 1
      ensures var j := Job(job, RUNNING, NewContext(entry, stack), paging);
              Jobs() == if old(ring) == [] then [j] else Inserted(old(Jobs()), j)
      ensures NewJob(Jobs()[if old(ring) == [] then 0 else 1], job, entry, stack, paging)
    {
      CurrentIsNull();
      ghost var slot: nat;
      job, slot := slab.Allocate();
      assert job !in Members(ring);
      if current == 0 {
        mem := mem[job := Record(RUNNING, NewContext(entry, stack), paging, job)];
        current, ring := job, [job];
        LinkedAlone(mem, job);
      } else {
        assert LinkAt(mem, ring, 0);
        var record := Record(RUNNING, NewContext(entry, stack), paging, mem[current].next);
        LinkedInserted(mem, ring, job, record);
        JobsInserted(mem, ring, job, record);
        mem := InsertedRecords(mem, current, job, record);
        ring := [ring[0], job] + ring[1..];
      }
    }

    /** Finds the predecessor of `job`, starting behind the current job. */
    method Predecessor(job: nat, ghost k: nat) returns (last: nat)
      requires Valid() && k < |ring| && ring[k] == job
      ensures last == ring[Before(|ring|, k)]
    {
      ghost var i := 1;
      last := current;
      assert LinkAt(mem, ring, 0);
      var curr := mem[current].next;
      while curr != job
        invariant 1 <= i <= |ring| && last == ring[i - 1] && curr == NextOf(ring, i - 1)
        invariant k == 0 || i <= k
        decreases |ring| - i
      {
        assert LinkAt(mem, ring, i);
        last := curr;
        curr := mem[curr].next;
        i := i + 1;
      }
    }

    /** kalloc for a struct paging_manager of 16 bytes. */
    method AllocateManager() returns (manager: nat)
      requires Backed() && heap.freeBlocks > 0
      modifies heap, heap.table
      ensures Backed() && manager !in managers && IsBlock(heap.start, heap.Live(), reserved, manager)
      ensures heap.freeBlocks == old(heap.freeBlocks) - 1
    {
      Heaps.FreeCell(heap.table[..], heap.blocks);
      ghost var at: nat;
      manager, at := heap.Alloc(16);
      assert Heaps.BlocksFor(16) == 1;
      assert (manager - heap.start) / 4096 == at;
    }

    /** A manager lies outside every reserved zone, and apart from the other managers. */
    lemma ManagerApart(m: nat, a: nat, end: nat)
      requires Backed() && m in managers && IsZone(heap.start, reserved, a, end)
      ensures OutsideZone(m, a, end)
      ensures forall n :: n in managers && n != m ==> m + 4096 <= n || n + 4096 <= m
    {
      BlockOutsideZone(heap.start, heap.table[..], heap.blocks, reserved, m, a, end);
      forall n | n in managers && n != m
        ensures m + 4096 <= n || n + 4096 <= m
      {
        assert IsBlock(heap.start, heap.Live(), reserved, m) && IsBlock(heap.start, heap.Live(), reserved, n);
      }
    }

    lemma ZonesApart(a: nat, e: nat, b: nat, f: nat)
      requires Backed() && IsZone(heap.start, reserved, a, e) && IsZone(heap.start, reserved, b, f) && a != b
      ensures e <= b || f <= a
    {
      RegionsApart(heap.table[..], heap.blocks, (a - heap.start) / 4096, (b - heap.start) / 4096);
    }

    /** kfree of a paging manager. */
    method FreeManager(manager: nat)
      requires Backed() && manager in managers
      modifies this`managers, heap, heap.table
      ensures Backed() && managers == old(managers) - {manager}
      ensures heap.freeBlocks == old(heap.freeBlocks) + 1
    {
      ghost var live := heap.Live();
      assert IsBlock(heap.start, live, reserved, manager);
      InHeap(manager);
      OtherBlocks(heap.start, live, reserved, managers, manager);
      heap.Free(manager);
      managers := managers - {manager};
    }

    /** A live block lies in the heap. */
    lemma InHeap(manager: nat)
      requires heap.Valid() && IsBlock(heap.start, heap.Live(), reserved, manager)
      ensures heap.start <= manager < heap.start + heap.blocks * 4096
    {
    }

    /** Takes a job off the ring and frees its paging manager and its slot. */
    method Delete(job: nat, ghost k: nat)
      requires Valid() && Backed() && k < |ring| && ring[k] == job && |ring| >= 2 && Jobs()[k].paging in managers
      modifies this`mem, this`current, this`ring, this`managers, slab.header, heap, heap.table
      ensures Valid() && Backed() && ring == Without(old(ring), k)
      ensures Jobs() == Without(old(Jobs()), k)
      ensures managers == old(managers) - {old(Jobs())[k].paging}
      ensures heap.freeBlocks + |ring| == old(heap.freeBlocks + |ring|)
    {
      assert LinkAt(mem, ring, 0);
      var restore := mem[current].next;
      var last := Predecessor(job, k);
      LinkedWithout(mem, ring, k);
      JobsWithout(mem, ring, k);
      ghost var job0 := mem[job];
      mem := mem[last := mem[last].(next := mem[job].next)];
      assert mem[job].paging == job0.paging;
      FreeManager(mem[job].paging);
      assert job in Members(ring);
      AddressInArea(slab.Base(), slab.objectSize, slab.Live(), slab.maxStore, job);
      var _ := slab.Free(job);
      if job == current {
        current := restore;
      }
      ring := Without(ring, k);
    }

    /** Moves on to the next RUNNING job, deleting the terminated ones on the way. */
    method MoveForward()
      requires Valid() && Backed() && ring != [] && HasRunning(Jobs())
      requires Distinct(Jobs()) && forall j :: j in Jobs() ==> j.paging in managers
      modifies this`mem, this`current, this`ring, this`managers, slab.header, heap, heap.table
      ensures Valid() && Backed()
      ensures Jobs() == Forward(old(Jobs()))
      ensures managers == old(managers) - Reaped(old(Jobs()))
      ensures active == old(active) && heap.freeBlocks + |ring| == old(heap.freeBlocks + |ring|)
    {
      ghost var rest := Rotated(Jobs());
      RotatedHasRunning(Jobs());
      RotatedDistinct(Jobs());
      Turn();
      Settle(rest);
    }

    /** The loop of job_forward, from a ring `rest` on. */
    method Settle(ghost rest: seq<Job>)
      requires Valid() && Backed() && HasRunning(rest) && Jobs() == rest
      requires Distinct(rest) && forall j :: j in rest ==> j.paging in managers
      modifies this`mem, this`current, this`ring, this`managers, slab.header, heap, heap.table
      ensures Valid() && Backed()
      ensures Jobs() == Passed(rest, FirstRunning(rest))
      ensures managers == old(managers) - ReapedBelow(rest, FirstRunning(rest))
      ensures active == old(active) && heap.freeBlocks + |ring| == old(heap.freeBlocks + |ring|)
    {
      ghost var k, m0 := FirstRunning(rest), managers;
      ghost var i := 0;
      assert Passed(rest, 0) == rest;
      assert AtRound(rest, 0, m0);
      var status := CurrentStatus(rest, 0);
      while status != RUNNING
        invariant Valid() && Backed() && 0 <= i <= k && AtRound(rest, i, m0) && status == rest[i].status
        invariant active == old(active) && heap.freeBlocks + |ring| == old(heap.freeBlocks + |ring|)
        decreases k - i
      {
        assert i != k;
        PassHead(rest, i, m0);
        i := i + 1;
        status := CurrentStatus(rest, i);
      }
    }

    /** The ring and the managers after `i` rounds of the loop. */
    ghost predicate AtRound(rest: seq<Job>, i: nat, m0: set<nat>)
      requires Valid() && i <= |rest|
      reads this, slab.header
    {
      Jobs() == Passed(rest, i) && managers == m0 - ReapedBelow(rest, i)
    }

    method CurrentStatus(ghost rest: seq<Job>, ghost i: nat) returns (status: Status)
      requires Valid() && i < |rest| && Jobs() == Passed(rest, i)
      ensures status == rest[i].status
    {
      PassedStep(rest, i);
      assert Jobs()[0] == JobAt(mem, current);
      status := mem[current].status;
    }

    /** One round of the loop, at a head that is not RUNNING. */
    method PassHead(ghost rest: seq<Job>, ghost i: nat, ghost m0: set<nat>)
      requires Valid() && Backed() && i + 1 < |rest| && AtRound(rest, i, m0) && rest[i].status != RUNNING
      requires Distinct(rest) && forall j :: j in rest ==> j.paging in m0
      modifies this`mem, this`current, this`ring, this`managers, slab.header, heap, heap.table
      ensures Valid() && Backed() && AtRound(rest, i + 1, m0) && active == old(active)
      ensures heap.freeBlocks + |ring| == old(heap.freeBlocks + |ring|)
    {
      PassedStep(rest, i);
      assert Jobs()[0] == rest[i] && |ring| >= 2;
      if mem[current].status == TERMINATED {
        ReapHead(rest, i, m0);
      } else {
        ReapedStep(rest, i);
        Turn();
      }
    }

    /** The round at a terminated head. */
    method ReapHead(ghost rest: seq<Job>, ghost i: nat, ghost m0: set<nat>)
      requires Valid() && Backed() && i < |rest| && |ring| >= 2 && AtRound(rest, i, m0) && rest[i].status == TERMINATED
      requires Distinct(rest) && rest[i].paging in m0
      modifies this`mem, this`current, this`ring, this`managers, slab.header, heap, heap.table
      ensures Valid() && Backed() && AtRound(rest, i + 1, m0) && active == old(active)
      ensures heap.freeBlocks + |ring| == old(heap.freeBlocks + |ring|)
    {
      ReapedHead(rest, i, m0);
      Delete(current, 0);
    }

    /** The next job on the ring becomes the current one. */
    method Turn()
      requires Valid() && ring != []
      modifies this`current, this`ring
      ensures Valid() && ring == Rotated(old(ring)) && Jobs() == Rotated(old(Jobs()))
    {
      LinkedRotated(mem, ring);
      assert LinkAt(mem, ring, 0);
      current := mem[current].next;
      ring := Rotated(ring);
    }

    /** The current job is marked; it leaves the ring at a later tick. */
    method TerminateCurrent()
      requires Valid() && WellFormed(Abstract())
      modifies this`mem
      ensures Valid() && WellFormed(Abstract()) && Abstract() == Step(old(Abstract()), Terminate)
      ensures Jobs() == [old(Jobs())[0].(status := TERMINATED)] + old(Jobs())[1..]
      ensures ring == old(ring)
    {
      StepWellFormed(Abstract(), Terminate);
      ghost var m := mem;
      mem := mem[current := mem[current].(status := TERMINATED)];
      HeadChanged(m, ring, mem[current]);
    }

    /** A job for a fresh paging manager, whose program is in place. */
    method SpawnJob(entry: nat, stack: nat, manager: nat) returns (job: nat)
      requires Valid() && Backed() && WellFormed(Abstract()) && |slab.Live()| < slab.maxStore
      requires manager !in managers && IsBlock(heap.start, heap.Live(), reserved, manager)
      modifies this, slab.header
      ensures Valid() && Backed() && WellFormed(Abstract())
      ensures Enabled(old(Abstract()), Spawn(job, entry, stack, manager))
      ensures Abstract() == Step(old(Abstract()), Spawn(job, entry, stack, manager))
      ensures managers == old(managers) + {manager} && |ring| == |old(ring)| + 1
      ensures |slab.Live()| == |old(slab.Live())| + 1
    {
      ghost var before, mem0, ring0 := Abstract(), mem, ring;
      managers := managers + {manager};
      job := Create(entry, stack, manager);
      OtherIds(mem0, ring0, job);
      SpawnWellFormed(before, Spawn(job, entry, stack, manager), Abstract());
    }

    /** The first job: created while the kernel's own manager is in use, then entered. */
    method Boot(entry: nat, stack: nat, manager: nat) returns (job: nat)
      requires Valid() && Backed() && ring == [] && managers == {} && |slab.Live()| < slab.maxStore && |cpu.frame| == 32
      requires IsBlock(heap.start, heap.Live(), reserved, manager)
      modifies this, slab.header
      ensures Valid() && Backed() && WellFormed(Abstract()) && |slab.Live()| == |old(slab.Live())| + 1
      ensures Abstract() == State([Job(job, RUNNING, NewContext(entry, stack), manager)], manager, {manager}, old(cpu))
      ensures NewJob(Jobs()[0], job, entry, stack, manager)
    {
      managers := managers + {manager};
      job := Create(entry, stack, manager);
      var _ := Apply(mem[current].paging);
    }

    method SaveCurrent(interrupted: Cpu)
      requires Valid() && ring != [] && |interrupted.frame| == 32
      modifies this`mem
      ensures Valid() && Jobs() == Interrupted(old(Jobs()), interrupted)
    {
      var context := SaveContext(interrupted);
      ghost var m := mem;
      mem := mem[current := mem[current].(context := context)];
      HeadChanged(m, ring, mem[current]);
    }

    /** The timer interrupt: save, move on, restore, switch the paging manager. */
    method TickHandler(interrupted: Cpu)
      requires Valid() && Backed() && WellFormed(Abstract()) && Enabled(Abstract(), Tick(interrupted))
      modifies this, slab.header, heap, heap.table
      ensures Valid() && Backed() && Abstract() == Step(old(Abstract()), Tick(interrupted))
      ensures WellFormed(Abstract()) && managers <= old(managers)
      ensures heap.freeBlocks + |ring| == old(heap.freeBlocks + |ring|)
    {
      ghost var before := Abstract();
      InterruptedHasRunning(Jobs(), interrupted);
      SaveAndMove(interrupted);
      ResumeCurrent(interrupted);
      StepWellFormed(before, Tick(interrupted));
    }

    /** The first half of the tick. The manager in use, that of the interrupted job, is still allocated
        at its end, even if that job is terminated. */
    method SaveAndMove(interrupted: Cpu)
      requires Valid() && Backed() && WellFormed(Abstract()) && Enabled(Abstract(), Tick(interrupted))
      requires HasRunning(Interrupted(Jobs(), interrupted))
      modifies this`mem, this`current, this`ring, this`managers, slab.header, heap, heap.table
      ensures Valid() && Backed() && ring != [] && |Jobs()[0].context.x| == 31
      ensures Jobs() == Forward(Interrupted(old(Jobs()), interrupted))
      ensures managers == old(managers) - Reaped(Interrupted(old(Jobs()), interrupted))
      ensures active in managers && heap.freeBlocks + |ring| == old(heap.freeBlocks + |ring|)
    {
      ghost var jobs := Interrupted(Jobs(), interrupted);
      assert active == jobs[0].paging;
      InterruptedDistinct(Jobs(), interrupted);
      assert forall j :: j in jobs ==> j.paging in managers && |j.context.x| == 31;
      SaveCurrent(interrupted);
      assert Jobs() == jobs;
      MoveForward();
      assert Jobs() == Forward(jobs);
      assert ring != [] && |Jobs()[0].context.x| == 31 by {
        ForwardMembers(jobs);
        assert Jobs()[0] in jobs;
      }
      ActiveNotReaped(jobs);
    }

    method ResumeCurrent(interrupted: Cpu)
      requires Valid() && ring != [] && |interrupted.frame| == 32 && |Jobs()[0].context.x| == 31
      modifies this`cpu, this`active
      ensures Valid() && Jobs() == old(Jobs())
      ensures cpu == Restored(interrupted, Jobs()[0].context) && active == Jobs()[0].paging
    {
      cpu := RestoreContext(interrupted, mem[current].context);
      var _ := Apply(mem[current].paging);
    }
  }

  /** Rewriting the current record without its links changes the head of the ring only. */
  lemma HeadChanged(mem: Records, ring: seq<nat>, r: Record)
    requires Linked(mem, ring) && ring != [] && r.next == mem[ring[0]].next
    ensures var mem' := mem[ring[0] := r];
            && Linked(mem', ring)
            && JobsOf(mem', ring) == [Job(ring[0], r.status, r.context, r.paging)] + JobsOf(mem, ring)[1..]
  {
    var mem' := mem[ring[0] := r];
    forall i: nat | i < |ring|
      ensures LinkAt(mem', ring, i)
    {
      assert LinkAt(mem, ring, i);
    }
  }
}
