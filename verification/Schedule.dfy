/** The job ring and the scheduler as a state machine.

    The ring is a sequence that starts at the current job and follows the `next` pointers. The steps
    are spawning a job, terminating the current one, and a timer tick from user mode. */
module Schedule {
  import opened Wrappers

  datatype Status = RUNNING | SLEEPING | TERMINATED

  /** What the kernel keeps of an interrupted job: 31 frame words, the program counter and the stack pointer. */
  datatype Context = Context(x: seq<nat>, pc: nat, sp: nat)

  /** `id` is the address of the job's slot, `paging` that of its paging manager. */
  datatype Job = Job(id: nat, status: Status, context: Context, paging: nat)

  /** The exception frame of 32 words, with the exception link register and the user stack pointer. */
  datatype Cpu = Cpu(frame: seq<nat>, elr: nat, sp: nat)

  /** `active` is the paging manager in use, `managers` the paging managers that are allocated. */
  datatype State = State(jobs: seq<Job>, active: nat, managers: set<nat>, cpu: Cpu)

  datatype Event =
    | Spawn(id: nat, entry: nat, stack: nat, paging: nat)
    | Terminate
    | Tick(cpu: Cpu)

  // ---------------------------------------------------------------- contexts

  /** Entry i of x is frame word 30 - i. The frame has 32 words; word 31, where the exception vector
      puts x1, is not part of the context. */
  function Saved(cpu: Cpu): Context
    requires |cpu.frame| == 32
  {
    Context(seq(31, i requires 0 <= i < 31 => cpu.frame[30 - i]), cpu.elr, cpu.sp)
  }

  /** Words 0 to 30 come from the context; word 31 stays. */
  function Restored(cpu: Cpu, c: Context): Cpu
    requires |cpu.frame| == 32 && |c.x| == 31
  {
    Cpu(seq(31, i requires 0 <= i < 31 => c.x[30 - i]) + [cpu.frame[31]], c.pc, c.sp)
  }

  function NewContext(entry: nat, stack: nat): Context {
    Context(seq(31, _ => 0), entry, stack)
  }

  /** The context of a job that has not run yet. */
  predicate Unstarted(c: Context, entry: nat, stack: nat) {
    c.pc == entry && c.sp == stack && |c.x| == 31 && forall i :: 0 <= i < 31 ==> c.x[i] == 0
  }

  /** What is restored is what was saved: saving again gives the same context. */
  lemma SavedRestored(cpu: Cpu, c: Context)
    requires |cpu.frame| == 32 && |c.x| == 31
    ensures Saved(Restored(cpu, c)) == c
  {
    assert Saved(Restored(cpu, c)).x == c.x;
  }

  /** What restoring a context leaves of the frame that is there: word 31. */
  lemma RestoredByAnother(interrupted: Cpu, cpu: Cpu)
    requires |interrupted.frame| == 32 && |cpu.frame| == 32
    ensures Restored(cpu, Saved(interrupted)) ==
            Cpu(interrupted.frame[31 := cpu.frame[31]], interrupted.elr, interrupted.sp)
  {
    var r := Restored(cpu, Saved(interrupted));
    assert forall i :: 0 <= i < 31 ==> r.frame[i] == interrupted.frame[30 - (30 - i)];
    assert r.frame == interrupted.frame[31 := cpu.frame[31]];
  }

  /** A job gets back the whole frame it was interrupted with exactly when word 31 happens to be the
      same, since that word is left as the job before had it. */
  lemma WholeFrameRestored(interrupted: Cpu, cpu: Cpu)
    requires |interrupted.frame| == 32 && |cpu.frame| == 32
    ensures Restored(cpu, Saved(interrupted)) == interrupted <==> cpu.frame[31] == interrupted.frame[31]
  {
    RestoredByAnother(interrupted, cpu);
    assert interrupted.frame[31 := interrupted.frame[31]] == interrupted.frame;
    assert interrupted.frame[31 := cpu.frame[31]][31] == cpu.frame[31];
  }

  // ---------------------------------------------------------------- moving to the next job

  predicate HasRunning(jobs: seq<Job>) {
    exists i :: 0 <= i < |jobs| && jobs[i].status == RUNNING
  }

  /** The position of the first RUNNING job. */
  function FirstRunning(jobs: seq<Job>): (k: nat)
    requires HasRunning(jobs)
    ensures k < |jobs| && jobs[k].status == RUNNING
    ensures forall i :: 0 <= i < k ==> jobs[i].status != RUNNING
  {
    if jobs[0].status == RUNNING then 0
    else
      assert HasRunning(jobs[1..]) by {
        var i :| 0 <= i < |jobs| && jobs[i].status == RUNNING;
        assert jobs[1..][i - 1] == jobs[i];
      }
      FirstRunning(jobs[1..]) + 1
  }

  /** The jobs that are not terminated, in order. */
  function Survivors(jobs: seq<Job>): seq<Job> {
    if jobs == [] then []
    else
      var last := jobs[|jobs| - 1];
      Survivors(jobs[..|jobs| - 1]) + if last.status == TERMINATED then [] else [last]
  }

  /** The ring after passing its first `k` jobs: the terminated ones are gone, the others are behind. */
  function Passed(jobs: seq<Job>, k: nat): seq<Job>
    requires k <= |jobs|
  {
    jobs[k..] + Survivors(jobs[..k])
  }

  /** A ring seen from the second place on. */
  function Rotated<T>(ring: seq<T>): seq<T>
    requires ring != []
  {
    ring[1..] + [ring[0]]
  }

  lemma RotatedHasRunning(jobs: seq<Job>)
    requires HasRunning(jobs)
    ensures HasRunning(Rotated(jobs))
  {
    var i :| 0 <= i < |jobs| && jobs[i].status == RUNNING;
    assert Rotated(jobs)[if i == 0 then |jobs| - 1 else i - 1] == jobs[i];
  }

  /** job_forward: on to the first RUNNING job after the current one. */
  function Forward(jobs: seq<Job>): seq<Job>
    requires HasRunning(jobs)
  {
    RotatedHasRunning(jobs);
    Passed(Rotated(jobs), FirstRunning(Rotated(jobs)))
  }

  /** After the move the head is RUNNING, and every job is one from before. */
  lemma ForwardMembers(jobs: seq<Job>)
    requires HasRunning(jobs)
    ensures Forward(jobs) != [] && Forward(jobs)[0].status == RUNNING
    ensures forall j :: j in Forward(jobs) ==> j in jobs
  {
    RotatedHasRunning(jobs);
    var rest := Rotated(jobs);
    PassedStep(rest, FirstRunning(rest));
    forall j | j in Forward(jobs)
      ensures j in jobs
    {
      PassedMembers(rest, FirstRunning(rest), j);
      assert j in rest;
    }
  }

  /** The paging managers of the terminated ones among the first `k` jobs. */
  function ReapedBelow(jobs: seq<Job>, k: nat): set<nat>
    requires k <= |jobs|
  {
    set i | 0 <= i < k && jobs[i].status == TERMINATED :: jobs[i].paging
  }

  lemma ReapedStep(jobs: seq<Job>, k: nat)
    requires k < |jobs|
    ensures ReapedBelow(jobs, k + 1) ==
            ReapedBelow(jobs, k) + if jobs[k].status == TERMINATED then {jobs[k].paging} else {}
  {
    forall p | p in ReapedBelow(jobs, k + 1) && p !in ReapedBelow(jobs, k)
      ensures jobs[k].status == TERMINATED && p == jobs[k].paging
    {
      var i :| 0 <= i < k + 1 && jobs[i].status == TERMINATED && jobs[i].paging == p;
    }
  }

  /** The paging managers of the jobs that job_forward deletes. */
  function Reaped(jobs: seq<Job>): set<nat>
    requires HasRunning(jobs)
  {
    RotatedHasRunning(jobs);
    ReapedBelow(Rotated(jobs), FirstRunning(Rotated(jobs)))
  }

  // ---------------------------------------------------------------- what moving forward keeps

  /** No two jobs share a slot or a paging manager. */
  ghost predicate Distinct(jobs: seq<Job>) {
    forall i, j :: 0 <= i < j < |jobs| ==> jobs[i].id != jobs[j].id && jobs[i].paging != jobs[j].paging
  }

  /** One round of the loop in job_forward: the head is dropped if terminated, else it goes to the back. */
  lemma PassedStep(jobs: seq<Job>, k: nat)
    requires k < |jobs|
    ensures Passed(jobs, k) != [] && Passed(jobs, k)[0] == jobs[k]
    ensures Passed(jobs, k + 1) ==
            if jobs[k].status == TERMINATED then Passed(jobs, k)[1..] else Rotated(Passed(jobs, k))
  {
    assert jobs[..k + 1][..k] == jobs[..k];
    assert jobs[k..] == [jobs[k]] + jobs[k + 1..];
  }

  lemma RotatedDistinct(jobs: seq<Job>)
    requires jobs != [] && Distinct(jobs)
    ensures Distinct(jobs[1..]) && Distinct(Rotated(jobs))
  {
  }

  lemma {:induction false} PassedDistinct(jobs: seq<Job>, k: nat)
    requires k <= |jobs| && Distinct(jobs)
    ensures Distinct(Passed(jobs, k))
  {
    if k == 0 {
      assert Passed(jobs, 0) == jobs;
    } else {
      PassedDistinct(jobs, k - 1);
      PassedStep(jobs, k - 1);
      RotatedDistinct(Passed(jobs, k - 1));
    }
  }

  lemma {:induction false} SurvivorsMembers(jobs: seq<Job>, j: Job)
    ensures j in Survivors(jobs) <==> j in jobs && j.status != TERMINATED
  {
    if jobs != [] {
      var n := |jobs| - 1;
      SurvivorsMembers(jobs[..n], j);
      assert jobs == jobs[..n] + [jobs[n]];
    }
  }

  /** The jobs left are those not yet passed and those passed alive. */
  lemma PassedMembers(jobs: seq<Job>, k: nat, j: Job)
    requires k <= |jobs|
    ensures j in Passed(jobs, k) <==> j in jobs[k..] || (j in jobs[..k] && j.status != TERMINATED)
  {
    SurvivorsMembers(jobs[..k], j);
  }

  // ---------------------------------------------------------------- no manager is lost

  /** The managers of the jobs. */
  ghost function Pagings(jobs: seq<Job>): set<nat> {
    if jobs == [] then {} else Pagings(jobs[..|jobs| - 1]) + {jobs[|jobs| - 1].paging}
  }

  lemma {:induction false} PagingsMembers(jobs: seq<Job>)
    ensures Pagings(jobs) == set j | j in jobs :: j.paging
  {
    if jobs != [] {
      var n := |jobs| - 1;
      PagingsMembers(jobs[..n]);
      assert jobs == jobs[..n] + [jobs[n]];
    }
  }

  /** What passing jobs takes off the ring is what it frees. */
  lemma PassedPagings(jobs: seq<Job>, k: nat)
    requires k <= |jobs| && Distinct(jobs)
    ensures Pagings(Passed(jobs, k)) == Pagings(jobs) - ReapedBelow(jobs, k)
  {
    PagingsMembers(jobs);
    PagingsMembers(Passed(jobs, k));
    forall p | p in Pagings(Passed(jobs, k))
      ensures p in Pagings(jobs) && p !in ReapedBelow(jobs, k)
    {
      var j :| j in Passed(jobs, k) && j.paging == p;
      ReapedBelowAreGone(jobs, k, j);
    }
    forall p | p in Pagings(jobs) && p !in ReapedBelow(jobs, k)
      ensures p in Pagings(Passed(jobs, k))
    {
      var i :| 0 <= i < |jobs| && jobs[i].paging == p;
      PassedMembers(jobs, k, jobs[i]);
      assert jobs[i] in if i < k then jobs[..k] else jobs[k..];
    }
  }

  lemma RotatedPagings(jobs: seq<Job>)
    requires jobs != []
    ensures Pagings(Rotated(jobs)) == Pagings(jobs)
  {
    PagingsMembers(jobs);
    PagingsMembers(Rotated(jobs));
    assert jobs == [jobs[0]] + jobs[1..];
  }

  /** A new head with the manager of the old one. */
  lemma HeadPagings(jobs: seq<Job>, j: Job)
    requires jobs != [] && j.paging == jobs[0].paging
    ensures Pagings([j] + jobs[1..]) == Pagings(jobs)
  {
    PagingsMembers(jobs);
    PagingsMembers([j] + jobs[1..]);
    assert jobs == [jobs[0]] + jobs[1..];
  }

  lemma InsertedPagings(jobs: seq<Job>, j: Job)
    requires jobs != []
    ensures Pagings(Inserted(jobs, j)) == Pagings(jobs) + {j.paging}
  {
    PagingsMembers(jobs);
    PagingsMembers(Inserted(jobs, j));
    assert jobs == [jobs[0]] + jobs[1..];
  }

  /** job_forward frees the managers of exactly the jobs it takes off the ring. */
  lemma ForwardPagings(jobs: seq<Job>)
    requires HasRunning(jobs) && Distinct(jobs)
    ensures Pagings(Forward(jobs)) == Pagings(jobs) - Reaped(jobs)
  {
    RotatedHasRunning(jobs);
    RotatedDistinct(jobs);
    RotatedPagings(jobs);
    PassedPagings(Rotated(jobs), FirstRunning(Rotated(jobs)));
  }

  /** No two jobs share a manager, so there are as many as jobs. */
  lemma {:induction false} OnePagingEach(jobs: seq<Job>)
    requires Distinct(jobs)
    ensures |Pagings(jobs)| == |jobs|
  {
    if jobs != [] {
      PagingsMembers(jobs[..|jobs| - 1]);
      OnePagingEach(jobs[..|jobs| - 1]);
    }
  }

  // ---------------------------------------------------------------- steps

  function Interrupted(jobs: seq<Job>, cpu: Cpu): seq<Job>
    requires jobs != [] && |cpu.frame| == 32
  {
    [jobs[0].(context := Saved(cpu))] + jobs[1..]
  }

  predicate Enabled(s: State, e: Event) {
    match e
    case Spawn(id, _, _, paging) => paging !in s.managers && forall j :: j in s.jobs ==> j.id != id
    case Terminate => true
    case Tick(cpu) => |cpu.frame| == 32 && HasRunning(s.jobs)
  }

  lemma InterruptedHasRunning(jobs: seq<Job>, cpu: Cpu)
    requires jobs != [] && |cpu.frame| == 32 && HasRunning(jobs)
    ensures HasRunning(Interrupted(jobs, cpu))
  {
    var i :| 0 <= i < |jobs| && jobs[i].status == RUNNING;
    assert Interrupted(jobs, cpu)[i].status == RUNNING;
  }

  lemma InterruptedDistinct(jobs: seq<Job>, cpu: Cpu)
    requires jobs != [] && |cpu.frame| == 32 && Distinct(jobs)
    ensures Distinct(Interrupted(jobs, cpu))
  {
  }

  /** The new job goes right behind the current one. */
  function Inserted(jobs: seq<Job>, j: Job): seq<Job>
    requires jobs != []
  {
    [jobs[0], j] + jobs[1..]
  }

  /** The allocated managers are those of the jobs on the ring, and the one in use is the current job's. */
  ghost predicate WellFormed(s: State) {
    && s.jobs != []
    && (forall j :: j in s.jobs ==> |j.context.x| == 31 && j.paging in s.managers)
    && s.managers == Pagings(s.jobs)
    && Distinct(s.jobs)
    && s.active == s.jobs[0].paging
    && |s.cpu.frame| == 32
  }

  ghost function Step(s: State, e: Event): State
    requires WellFormed(s) && Enabled(s, e)
  {
    match e
    case Spawn(id, entry, stack, paging) =>
      s.(jobs := Inserted(s.jobs, Job(id, RUNNING, NewContext(entry, stack), paging)), managers := s.managers + {paging})
    case Terminate =>
      s.(jobs := [s.jobs[0].(status := TERMINATED)] + s.jobs[1..])
    case Tick(cpu) =>
      InterruptedHasRunning(s.jobs, cpu);
      var jobs := Interrupted(s.jobs, cpu);
      var jobs' := Forward(jobs);
      ForwardMembers(jobs);
      State(jobs', jobs'[0].paging, s.managers - Reaped(jobs), Restored(cpu, jobs'[0].context))
  }

  // ---------------------------------------------------------------- one step keeps the state well formed

  /** What has been freed on the way belongs to none of the jobs left. */
  lemma ReapedBelowAreGone(jobs: seq<Job>, k: nat, j: Job)
    requires k <= |jobs| && Distinct(jobs) && j in Passed(jobs, k)
    ensures j.paging !in ReapedBelow(jobs, k) && j in jobs
  {
    PassedMembers(jobs, k, j);
  }

  /** A tick frees no manager of a remaining job. */
  lemma ReapedAreGone(jobs: seq<Job>, j: Job)
    requires HasRunning(jobs) && Distinct(jobs) && j in Forward(jobs)
    ensures j.paging !in Reaped(jobs)
  {
    RotatedHasRunning(jobs);
    RotatedDistinct(jobs);
    ReapedBelowAreGone(Rotated(jobs), FirstRunning(Rotated(jobs)), j);
  }

  /** A tick never frees the manager that is in use when it starts, even if that job is terminated. */
  lemma ActiveNotReaped(jobs: seq<Job>)
    requires HasRunning(jobs) && Distinct(jobs)
    ensures jobs[0].paging !in Reaped(jobs)
  {
    RotatedHasRunning(jobs);
    var rest := Rotated(jobs);
    RotatedDistinct(jobs);
    assert rest[|jobs| - 1] == jobs[0];
  }

  lemma InsertedWellFormed(s: State, j: Job)
    requires WellFormed(s) && |j.context.x| == 31 && j.paging !in s.managers && forall k :: k in s.jobs ==> k.id != j.id
    ensures WellFormed(s.(jobs := Inserted(s.jobs, j), managers := s.managers + {j.paging}))
  {
    assert forall k :: k in Inserted(s.jobs, j) ==> k == j || k in s.jobs;
    InsertedPagings(s.jobs, j);
  }

  lemma StepWellFormed(s: State, e: Event)
    requires WellFormed(s) && Enabled(s, e)
    ensures WellFormed(Step(s, e))
  {
    match e
    case Spawn(id, entry, stack, paging) =>
      InsertedWellFormed(s, Job(id, RUNNING, NewContext(entry, stack), paging));
    case Terminate =>
      HeadPagings(s.jobs, s.jobs[0].(status := TERMINATED));
    case Tick(cpu) => TickWellFormed(s, cpu);
  }

  /** The state with the new job in it is the next one, and well formed. */
  lemma SpawnWellFormed(s: State, e: Event, after: State)
    requires WellFormed(s) && e.Spawn? && e.paging !in s.managers && forall j :: j in s.jobs ==> j.id != e.id
    requires after == State(Inserted(s.jobs, Job(e.id, RUNNING, NewContext(e.entry, e.stack), e.paging)),
                            s.active, s.managers + {e.paging}, s.cpu)
    ensures Enabled(s, e) && after == Step(s, e) && WellFormed(after)
  {
    StepWellFormed(s, e);
  }

  lemma TickWellFormed(s: State, cpu: Cpu)
    requires WellFormed(s) && Enabled(s, Tick(cpu))
    ensures WellFormed(Step(s, Tick(cpu)))
  {
    InterruptedHasRunning(s.jobs, cpu);
    var jobs := Interrupted(s.jobs, cpu);
    InterruptedDistinct(s.jobs, cpu);
    RotatedHasRunning(jobs);
    RotatedDistinct(jobs);
    PassedDistinct(Rotated(jobs), FirstRunning(Rotated(jobs)));
    HeadPagings(s.jobs, jobs[0]);
    ForwardPagings(jobs);
    ForwardMembers(jobs);
    forall j | j in Forward(jobs)
      ensures |j.context.x| == 31 && j.paging in s.managers - Reaped(jobs)
    {
      ReapedAreGone(jobs, j);
    }
  }

  // ---------------------------------------------------------------- whole runs

  ghost predicate Runs(s: State, es: seq<Event>)
    requires WellFormed(s)
    decreases |es|, 0
  {
    es == [] ||
    (Runs(s, es[..|es| - 1]) && Enabled(Run(s, es[..|es| - 1]), es[|es| - 1]))
  }

  /** The state after a run. Every state on the way is well formed: the current job's manager is in
      use and allocated, and no two jobs share a slot or a manager. */
  ghost function Run(s: State, es: seq<Event>): (r: State)
    requires WellFormed(s) && Runs(s, es)
    ensures WellFormed(r)
    decreases |es|, 1
  {
    if es == [] then s
    else
      var before := Run(s, es[..|es| - 1]);
      StepWellFormed(before, es[|es| - 1]);
      Step(before, es[|es| - 1])
  }

  /** Over every run there are as many allocated managers as jobs: none is lost and none is freed twice. */
  lemma RunNoneLost(s: State, es: seq<Event>)
    requires WellFormed(s) && Runs(s, es)
    ensures Run(s, es).managers == Pagings(Run(s, es).jobs) && |Run(s, es).managers| == |Run(s, es).jobs|
  {
    OnePagingEach(Run(s, es).jobs);
  }

  // ---------------------------------------------------------------- contexts over whole runs

  function ContextIn(jobs: seq<Job>, id: nat): Option<Context> {
    if jobs == [] then None
    else if jobs[0].id == id then Some(jobs[0].context)
    else ContextIn(jobs[1..], id)
  }

  lemma {:induction false} ContextInMember(jobs: seq<Job>, j: Job)
    requires Distinct(jobs) && j in jobs
    ensures ContextIn(jobs, j.id) == Some(j.context)
  {
    if jobs[0] != j {
      var i :| 1 <= i < |jobs| && jobs[i] == j;
      assert jobs[1..][i - 1] == j;
      ContextInMember(jobs[1..], j);
    }
  }

  /** The context in which job `id` was last interrupted, or with which it was created, read off the
      events alone: what the CPU held at the last tick that found the job current. */
  ghost function LastContext(s: State, es: seq<Event>, id: nat): Option<Context>
    requires WellFormed(s) && Runs(s, es)
  {
    if es == [] then ContextIn(s.jobs, id)
    else
      var before := es[..|es| - 1];
      match es[|es| - 1]
      case Spawn(new_id, entry, stack, _) =>
        if new_id == id then Some(NewContext(entry, stack)) else LastContext(s, before, id)
      case Terminate => LastContext(s, before, id)
      case Tick(cpu) =>
        if Run(s, before).jobs[0].id == id then Some(Saved(cpu)) else LastContext(s, before, id)
  }

  /** The context that a step gives job `id`, if it sets it. */
  function NewlySet(b: State, e: Event, id: nat): Option<Context>
    requires b.jobs != [] && Enabled(b, e)
  {
    match e
    case Spawn(new_id, entry, stack, _) => if new_id == id then Some(NewContext(entry, stack)) else None
    case Terminate => None
    case Tick(cpu) => if b.jobs[0].id == id then Some(Saved(cpu)) else None
  }

  /** Otherwise the job keeps the context it had. */
  lemma StepContexts(b: State, e: Event, j: Job) returns (k: Job)
    requires WellFormed(b) && Enabled(b, e) && j in Step(b, e).jobs
    ensures if NewlySet(b, e, j.id).Some? then NewlySet(b, e, j.id) == Some(j.context)
            else k in b.jobs && k.id == j.id && k.context == j.context
  {
    k := j;
    match e
    case Spawn(id, entry, stack, paging) =>
      assert j.id != id ==> j in b.jobs;
    case Terminate =>
      k := if j in b.jobs then j else b.jobs[0];
    case Tick(cpu) =>
      var jobs := Interrupted(b.jobs, cpu);
      InterruptedHasRunning(b.jobs, cpu);
      ForwardMembers(jobs);
      if j.id == b.jobs[0].id {
        SameIdSameJob(jobs, j);
      } else {
        assert j in b.jobs;
      }
  }

  lemma {:induction false} ContextsKept(s: State, es: seq<Event>, j: Job)
    requires WellFormed(s) && Runs(s, es) && j in Run(s, es).jobs
    ensures LastContext(s, es, j.id) == Some(j.context)
    decreases |es|
  {
    if es == [] {
      ContextInMember(s.jobs, j);
    } else {
      var before := es[..|es| - 1];
      var k := StepContexts(Run(s, before), es[|es| - 1], j);
      if NewlySet(Run(s, before), es[|es| - 1], j.id).None? {
        ContextsKept(s, before, k);
      }
    }
  }

  lemma SameIdSameJob(jobs: seq<Job>, j: Job)
    requires Distinct(jobs) && j in jobs && j.id == jobs[0].id
    ensures j == jobs[0]
  {
  }

  /** A resumed job gets back exactly what was saved when it was last interrupted, or what it was
      created with, whatever ran, was created or was reaped in between. */
  lemma ResumedWhereInterrupted(s: State, es: seq<Event>, cpu: Cpu)
    requires WellFormed(s) && Runs(s, es + [Tick(cpu)])
    ensures var after := Run(s, es + [Tick(cpu)]);
            && after.jobs[0].status == RUNNING
            && LastContext(s, es + [Tick(cpu)], after.jobs[0].id) == Some(Saved(after.cpu))
            && after.cpu.frame[31] == cpu.frame[31]
  {
    var run := es + [Tick(cpu)];
    assert run[..|run| - 1] == es;
    var b, after := Run(s, es), Run(s, run);
    InterruptedHasRunning(b.jobs, cpu);
    ForwardMembers(Interrupted(b.jobs, cpu));
    ContextsKept(s, run, after.jobs[0]);
    SavedRestored(cpu, after.jobs[0].context);
  }

  lemma RunOneMore(s: State, es: seq<Event>, e: Event, after: State)
    requires WellFormed(s) && Runs(s, es) && Enabled(Run(s, es), e) && after == Step(Run(s, es), e)
    ensures Runs(s, es + [e]) && Run(s, es + [e]) == after
  {
    assert (es + [e])[..|es|] == es;
  }

  /** Two RUNNING jobs take turns. After two ticks the first is current again, with all that it was
      interrupted with except word 31, which is that of the second. */
  lemma TakingTurns(s: State, a: Cpu, b: Cpu)
    requires WellFormed(s) && |s.jobs| == 2 && s.jobs[0].status == RUNNING && s.jobs[1].status == RUNNING
    requires |a.frame| == 32 && |b.frame| == 32
    ensures Runs(s, [Tick(a), Tick(b)])
    ensures var after := Run(s, [Tick(a), Tick(b)]);
            && after.jobs[0].id == s.jobs[0].id
            && after.cpu == Cpu(a.frame[31 := b.frame[31]], a.elr, a.sp)
  {
    RunOneMore(s, [], Tick(a), TurnTaken(s, a));
    assert [] + [Tick(a)] == [Tick(a)];
    var one := Run(s, [Tick(a)]);
    RunOneMore(s, [Tick(a)], Tick(b), TurnTaken(one, b));
    assert [Tick(a)] + [Tick(b)] == [Tick(a), Tick(b)];
    RestoredByAnother(a, b);
  }

  /** One tick with two RUNNING jobs: they change places. */
  ghost function TurnTaken(s: State, cpu: Cpu): (after: State)
    requires WellFormed(s) && |s.jobs| == 2 && s.jobs[0].status == RUNNING && s.jobs[1].status == RUNNING
    requires |cpu.frame| == 32
    ensures Enabled(s, Tick(cpu)) && after == Step(s, Tick(cpu)) && WellFormed(after)
    ensures after.jobs == [s.jobs[1], s.jobs[0].(context := Saved(cpu))]
    ensures after.cpu == Restored(cpu, s.jobs[1].context)
  {
    assert HasRunning(s.jobs);
    TickWellFormed(s, cpu);
    TurnTakenJobs(s, cpu);
    Step(s, Tick(cpu))
  }

  lemma TurnTakenJobs(s: State, cpu: Cpu)
    requires WellFormed(s) && |s.jobs| == 2 && HasRunning(s.jobs) && s.jobs[1].status == RUNNING && |cpu.frame| == 32
    ensures Step(s, Tick(cpu)).jobs == [s.jobs[1], s.jobs[0].(context := Saved(cpu))]
  {
    InterruptedHasRunning(s.jobs, cpu);
    var jobs := Interrupted(s.jobs, cpu);
    RotatedHasRunning(jobs);
    assert Rotated(jobs) == [s.jobs[1], s.jobs[0].(context := Saved(cpu))];
    assert FirstRunning(Rotated(jobs)) == 0;
    assert Passed(Rotated(jobs), 0) == Rotated(jobs);
  }

  function Zeros(n: nat): seq<nat> { seq(n, _ => 0) }

  /** A frame that is zero except for its word 31. */
  function FrameWith(x1: nat): Cpu { Cpu(Zeros(31) + [x1], 0, 0) }

  function TwoJobs(): State {
    State([Job(1, RUNNING, NewContext(0, 0), 1), Job(2, RUNNING, NewContext(0, 0), 2)], 1, {1, 2}, FrameWith(0))
  }

  /** So the first of two jobs, interrupted with 5 in word 31, goes on with the 7 of the second. */
  lemma Word31Lost()
    ensures WellFormed(TwoJobs()) && Runs(TwoJobs(), [Tick(FrameWith(5)), Tick(FrameWith(7))])
    ensures var after := Run(TwoJobs(), [Tick(FrameWith(5)), Tick(FrameWith(7))]);
            after.jobs[0].id == 1 && after.cpu == FrameWith(7)
  {
    TakingTurns(TwoJobs(), FrameWith(5), FrameWith(7));
    assert FrameWith(5).frame[31 := 7] == FrameWith(7).frame;
  }

  // ---------------------------------------------------------------- bounded waiting

  function Ticks(es: seq<Event>): nat {
    if es == [] then 0 else Ticks(es[..|es| - 1]) + if es[|es| - 1].Tick? then 1 else 0
  }

  function Spawns(es: seq<Event>): nat {
    if es == [] then 0 else Spawns(es[..|es| - 1]) + if es[|es| - 1].Spawn? then 1 else 0
  }

  /** Job `id` is RUNNING and `d` places behind the current job. */
  predicate Waits(jobs: seq<Job>, id: nat, d: nat) {
    d < |jobs| && jobs[d].id == id && jobs[d].status == RUNNING
  }

  /** A tick brings a waiting job at least one place nearer: it passes no RUNNING job. */
  lemma TickNearer(jobs: seq<Job>, id: nat, d: nat) returns (d': nat)
    requires HasRunning(jobs) && Waits(jobs, id, d) && d > 0
    ensures d' < d && Waits(Forward(jobs), id, d')
  {
    RotatedHasRunning(jobs);
    var rest := Rotated(jobs);
    var k := FirstRunning(rest);
    assert rest[d - 1] == jobs[d];
    assert k <= d - 1;
    d' := d - 1 - k;
    assert Forward(jobs)[d'] == rest[k..][d'];
  }

  /** A creation adds at most one place, a tick takes at least one, a termination none. */
  lemma StepNearer(b: State, e: Event, id: nat, c: nat) returns (d: nat)
    requires WellFormed(b) && Enabled(b, e) && Waits(b.jobs, id, c) && c > 0
    ensures Waits(Step(b, e).jobs, id, d)
    ensures d + (if e.Tick? then 1 else 0) <= c + (if e.Spawn? then 1 else 0)
  {
    match e
    case Spawn(_, _, _, _) => d := c + 1;
    case Terminate => d := c;
    case Tick(cpu) =>
      InterruptedHasRunning(b.jobs, cpu);
      d := TickNearer(Interrupted(b.jobs, cpu), id, c);
  }

  /** Job `id` is current after the first `k` events. */
  ghost predicate CurrentAfter(s: State, es: seq<Event>, k: nat, id: nat)
    requires WellFormed(s)
  {
    k <= |es| && Runs(s, es[..k]) && Run(s, es[..k]).jobs[0].id == id
  }

  lemma CurrentAfterPrefix(s: State, es: seq<Event>, n: nat, k: nat, id: nat)
    requires WellFormed(s) && k <= n <= |es|
    ensures CurrentAfter(s, es[..n], k, id) == CurrentAfter(s, es, k, id)
  {
    assert es[..n][..k] == es[..k];
  }

  /** As long as a waiting job has not become current, it gets nearer. */
  lemma {:induction false} StillWaiting(s: State, es: seq<Event>, id: nat, d: nat) returns (d': nat)
    requires WellFormed(s) && Runs(s, es) && Waits(s.jobs, id, d)
    requires forall k: nat :: k <= |es| ==> !CurrentAfter(s, es, k, id)
    ensures d' > 0 && Waits(Run(s, es).jobs, id, d') && d' + Ticks(es) <= d + Spawns(es)
    decreases |es|
  {
    assert !CurrentAfter(s, es, |es|, id);
    assert es[..|es|] == es;
    if es == [] {
      d' := d;
    } else {
      var before := es[..|es| - 1];
      forall k: nat | k <= |before|
        ensures !CurrentAfter(s, before, k, id)
      {
        CurrentAfterPrefix(s, es, |es| - 1, k, id);
      }
      var c := StillWaiting(s, before, id, d);
      d' := StepNearer(Run(s, before), es[|es| - 1], id, c);
    }
  }

  /** Bounded waiting: a RUNNING job `d` places behind the current one becomes current by the time
      there were d ticks more than jobs created. */
  lemma BoundedWaiting(s: State, es: seq<Event>, id: nat, d: nat)
    requires WellFormed(s) && Runs(s, es) && Waits(s.jobs, id, d)
    requires Ticks(es) >= d + Spawns(es)
    ensures exists k: nat :: CurrentAfter(s, es, k, id)
  {
    if forall k: nat :: k <= |es| ==> !CurrentAfter(s, es, k, id) {
      var d' := StillWaiting(s, es, id, d);
    }
  }

  // ---------------------------------------------------------------- from creation to the first run

  /** A job that is neither current nor terminated stays as it is. */
  lemma StepKeeps(b: State, e: Event, j: Job)
    requires WellFormed(b) && Enabled(b, e) && j in b.jobs && j.status != TERMINATED && j.id != b.jobs[0].id
    ensures j in Step(b, e).jobs
  {
    var i :| 0 <= i < |b.jobs| && b.jobs[i] == j;
    assert b.jobs[1..][i - 1] == j;
    if e.Tick? {
      InterruptedHasRunning(b.jobs, e.cpu);
      var jobs := Interrupted(b.jobs, e.cpu);
      assert jobs[i] == j;
      ForwardKeeps(jobs, i);
    }
  }

  /** job_forward keeps every job that is not terminated. */
  lemma ForwardKeeps(jobs: seq<Job>, i: nat)
    requires HasRunning(jobs) && i < |jobs| && jobs[i].status != TERMINATED
    ensures jobs[i] in Forward(jobs)
  {
    RotatedHasRunning(jobs);
    var rest := Rotated(jobs);
    var k := FirstRunning(rest);
    var m := if i == 0 then |jobs| - 1 else i - 1;
    assert rest[m] == jobs[i];
    PassedMembers(rest, k, jobs[i]);
    assert rest[m] in if m < k then rest[..k] else rest[k..];
  }

  lemma {:induction false} StaysUntilCurrent(s: State, es: seq<Event>, j: Job)
    requires WellFormed(s) && Runs(s, es) && j in s.jobs && j.status != TERMINATED
    requires forall k: nat :: k < |es| ==> !CurrentAfter(s, es, k, j.id)
    ensures j in Run(s, es).jobs
    decreases |es|
  {
    if es != [] {
      var n := |es| - 1;
      forall k: nat | k < n
        ensures !CurrentAfter(s, es[..n], k, j.id)
      {
        CurrentAfterPrefix(s, es, n, k, j.id);
      }
      StaysUntilCurrent(s, es[..n], j);
      assert !CurrentAfter(s, es, n, j.id);
      StepKeeps(Run(s, es[..n]), es[n], j);
    }
  }

  /** What the CPU gets when a job runs for the first time: program counter, stack pointer, and zeros in
      the frame words 0 to 30. */
  predicate Fresh(cpu: Cpu, entry: nat, stack: nat) {
    && cpu.elr == entry && cpu.sp == stack && |cpu.frame| == 32
    && forall i :: 0 <= i < 31 ==> cpu.frame[i] == 0
  }

  /** Over every run after its creation, the first tick that makes the new job current starts it at its
      entry, with its stack, cleared registers and its own paging manager. */
  lemma StartedAtEntry(s: State, id: nat, entry: nat, stack: nat, paging: nat, es: seq<Event>, cpu: Cpu)
    requires WellFormed(s) && Enabled(s, Spawn(id, entry, stack, paging))
    requires var s1 := Step(s, Spawn(id, entry, stack, paging));
             && WellFormed(s1) && Runs(s1, es + [Tick(cpu)])
             && Run(s1, es + [Tick(cpu)]).jobs[0].id == id
             && forall k: nat :: k <= |es| ==> !CurrentAfter(s1, es + [Tick(cpu)], k, id)
    ensures var after := Run(Step(s, Spawn(id, entry, stack, paging)), es + [Tick(cpu)]);
            Fresh(after.cpu, entry, stack) && after.active == paging && after.jobs[0].status == RUNNING
  {
    NewJobIn(s, id, entry, stack, paging);
    FirstRun(Step(s, Spawn(id, entry, stack, paging)), Step(s, Spawn(id, entry, stack, paging)).jobs[1], es, cpu, entry, stack);
  }

  lemma NewJobIn(s: State, id: nat, entry: nat, stack: nat, paging: nat)
    requires WellFormed(s) && Enabled(s, Spawn(id, entry, stack, paging))
    ensures var s1 := Step(s, Spawn(id, entry, stack, paging));
            && |s1.jobs| == |s.jobs| + 1
            && var j := s1.jobs[1];
               j.id == id && j.paging == paging && j.status == RUNNING && Unstarted(j.context, entry, stack)
  {
  }

  lemma FirstRun(s: State, j: Job, es: seq<Event>, cpu: Cpu, entry: nat, stack: nat)
    requires WellFormed(s) && j in s.jobs && j.status == RUNNING && Unstarted(j.context, entry, stack)
    requires Runs(s, es + [Tick(cpu)]) && Run(s, es + [Tick(cpu)]).jobs[0].id == j.id
    requires forall k: nat :: k <= |es| ==> !CurrentAfter(s, es + [Tick(cpu)], k, j.id)
    ensures var after := Run(s, es + [Tick(cpu)]);
            Fresh(after.cpu, entry, stack) && after.active == j.paging && after.jobs[0].status == RUNNING
  {
    var run := es + [Tick(cpu)];
    StaysUntilCurrent(s, run, j);
    assert run[..|es|] == es;
    SameIdSameJob(Run(s, run).jobs, j);
    RestoredFresh(cpu, j.context, entry, stack);
  }

  lemma RestoredFresh(cpu: Cpu, c: Context, entry: nat, stack: nat)
    requires |cpu.frame| == 32 && Unstarted(c, entry, stack)
    ensures Fresh(Restored(cpu, c), entry, stack)
  {
  }

  /** If nothing else happens, that is the very next tick: the new job is RUNNING, right behind the
      current one. */
  lemma NextTickStarts(s: State, id: nat, entry: nat, stack: nat, paging: nat, cpu: Cpu)
    requires WellFormed(s) && Enabled(s, Spawn(id, entry, stack, paging)) && |cpu.frame| == 32
    ensures var s1 := Step(s, Spawn(id, entry, stack, paging));
            && WellFormed(s1) && Enabled(s1, Tick(cpu))
            && var after := Step(s1, Tick(cpu));
               after.jobs[0].id == id && Fresh(after.cpu, entry, stack) && after.active == paging
  {
    var e := Spawn(id, entry, stack, paging);
    StepWellFormed(s, e);
    var s1 := Step(s, e);
    assert s1.jobs[1].status == RUNNING;
    InterruptedHasRunning(s1.jobs, cpu);
    var jobs := Interrupted(s1.jobs, cpu);
    RotatedHasRunning(jobs);
    assert Rotated(jobs)[0] == s1.jobs[1] && FirstRunning(Rotated(jobs)) == 0;
    assert Forward(jobs)[0] == s1.jobs[1];
    RestoredFresh(cpu, s1.jobs[1].context, entry, stack);
  }

  // ---------------------------------------------------------------- from termination to the end

  /** Every job in slot `id` is terminated. */
  ghost predicate Doomed(jobs: seq<Job>, id: nat) {
    forall j :: j in jobs && j.id == id ==> j.status == TERMINATED
  }

  /** The event creates a job in slot `id` or with manager `paging`. */
  predicate Reuses(e: Event, id: nat, paging: nat) {
    e.Spawn? && (e.id == id || e.paging == paging)
  }

  /** Termination marks the current job and nothing else. */
  lemma TerminateMarks(s: State)
    requires WellFormed(s)
    ensures var after := Step(s, Terminate);
            && |after.jobs| == |s.jobs| && after.jobs[1..] == s.jobs[1..]
            && after.jobs[0].status == TERMINATED
            && after.jobs[0].id == s.jobs[0].id && after.jobs[0].context == s.jobs[0].context
            && after.jobs[0].paging == s.jobs[0].paging
            && after.active == s.active && after.managers == s.managers && after.cpu == s.cpu
            && Doomed(after.jobs, s.jobs[0].id)
  {
  }

  lemma StepDoomed(b: State, e: Event, id: nat)
    requires WellFormed(b) && Enabled(b, e) && Doomed(b.jobs, id) && (e.Spawn? ==> e.id != id)
    ensures Doomed(Step(b, e).jobs, id) && Step(b, e).jobs != []
    ensures if e.Tick? then Step(b, e).jobs[0].id != id else Step(b, e).jobs[0].id == b.jobs[0].id
  {
    assert b.jobs == [b.jobs[0]] + b.jobs[1..];
    if e.Tick? {
      InterruptedHasRunning(b.jobs, e.cpu);
      var jobs := Interrupted(b.jobs, e.cpu);
      ForwardMembers(jobs);
      assert Forward(jobs)[0] in jobs;
    }
  }

  lemma {:induction false} RunDoomed(s: State, es: seq<Event>, id: nat)
    requires WellFormed(s) && Runs(s, es) && Doomed(s.jobs, id)
    requires forall k :: 0 <= k < |es| && es[k].Spawn? ==> es[k].id != id
    ensures Doomed(Run(s, es).jobs, id)
    ensures Ticks(es) > 0 ==> Run(s, es).jobs[0].id != id
    decreases |es|
  {
    if es != [] {
      RunDoomed(s, es[..|es| - 1], id);
      StepDoomed(Run(s, es[..|es| - 1]), es[|es| - 1], id);
    }
  }

  /** Over every run, the job that was current at a termination is not current again after a tick, unless
      its slot is given to a new job. */
  lemma TerminatedNeverRuns(s: State, es: seq<Event>)
    requires WellFormed(s) && WellFormed(Step(s, Terminate)) && Runs(Step(s, Terminate), es)
    requires forall k :: 0 <= k < |es| && es[k].Spawn? ==> es[k].id != s.jobs[0].id
    requires Ticks(es) > 0
    ensures Run(Step(s, Terminate), es).jobs[0].id != s.jobs[0].id
  {
    TerminateMarks(s);
    RunDoomed(Step(s, Terminate), es, s.jobs[0].id);
  }

  /** The terminated job `id` is the `d`-th one behind the current job; the current one itself is the last. */
  predicate Behind(jobs: seq<Job>, id: nat, paging: nat, d: nat) {
    && jobs != [] && 0 < d <= |jobs|
    && var j := Rotated(jobs)[d - 1];
       j.id == id && j.paging == paging && j.status == TERMINATED
  }

  /** No job has that slot or that manager. */
  ghost predicate Gone(jobs: seq<Job>, id: nat, paging: nat) {
    forall j :: j in jobs ==> j.id != id && j.paging != paging
  }

  /** A tick brings a terminated job at least one place nearer, or takes it off the ring. */
  lemma TickReaps(jobs: seq<Job>, id: nat, paging: nat, d: nat) returns (d': nat)
    requires HasRunning(jobs) && Distinct(jobs) && Behind(jobs, id, paging, d)
    ensures d' < d
    ensures if d' == 0 then Gone(Forward(jobs), id, paging) else Behind(Forward(jobs), id, paging, d')
  {
    RotatedHasRunning(jobs);
    RotatedDistinct(jobs);
    var rest := Rotated(jobs);
    var k := FirstRunning(rest);
    if d - 1 < k {
      d' := 0;
      forall j | j in Passed(rest, k)
        ensures j.id != id && j.paging != paging
      {
        ReapedPassed(rest, k, d - 1, j);
      }
    } else {
      d' := d - 1 - k;
      assert Forward(jobs)[d'] == rest[d - 1];
      assert Rotated(Forward(jobs))[d' - 1] == Forward(jobs)[d'];
    }
  }

  /** A terminated job that is passed shares nothing with those that are left. */
  lemma ReapedPassed(jobs: seq<Job>, k: nat, i: nat, j: Job)
    requires i < k <= |jobs| && Distinct(jobs) && jobs[i].status == TERMINATED && j in Passed(jobs, k)
    ensures j.id != jobs[i].id && j.paging != jobs[i].paging
  {
    PassedMembers(jobs, k, j);
    var m :| 0 <= m < |jobs| && jobs[m] == j && (m >= k || j.status != TERMINATED);
  }

  lemma InsertedBehind(jobs: seq<Job>, j: Job, id: nat, paging: nat, d: nat)
    requires Behind(jobs, id, paging, d)
    ensures Behind(Inserted(jobs, j), id, paging, d + 1)
  {
    assert Rotated(Inserted(jobs, j)) == [j] + Rotated(jobs);
  }

  lemma StepReaps(b: State, e: Event, id: nat, paging: nat, c: nat) returns (d: nat)
    requires WellFormed(b) && Enabled(b, e) && !Reuses(e, id, paging)
    requires if c == 0 then Gone(b.jobs, id, paging) else Behind(b.jobs, id, paging, c)
    ensures if d == 0 then Gone(Step(b, e).jobs, id, paging) else Behind(Step(b, e).jobs, id, paging, d)
    ensures d > 0 ==> c > 0 && d + (if e.Tick? then 1 else 0) <= c + (if e.Spawn? then 1 else 0)
  {
    if c == 0 {
      d := 0;
      StepGone(b, e, id, paging);
    } else {
      match e
      case Spawn(_, _, _, _) =>
        d := c + 1;
        InsertedBehind(b.jobs, Step(b, e).jobs[1], id, paging, c);
      case Terminate =>
        d := c;
      case Tick(cpu) =>
        InterruptedHasRunning(b.jobs, cpu);
        InterruptedDistinct(b.jobs, cpu);
        d := TickReaps(Interrupted(b.jobs, cpu), id, paging, c);
    }
  }

  lemma StepGone(b: State, e: Event, id: nat, paging: nat)
    requires WellFormed(b) && Enabled(b, e) && !Reuses(e, id, paging) && Gone(b.jobs, id, paging)
    ensures Gone(Step(b, e).jobs, id, paging)
  {
    assert b.jobs == [b.jobs[0]] + b.jobs[1..];
    if e.Tick? {
      InterruptedHasRunning(b.jobs, e.cpu);
      var jobs := Interrupted(b.jobs, e.cpu);
      ForwardMembers(jobs);
      assert Gone(jobs, id, paging);
    }
  }

  lemma {:induction false} RunReaps(s: State, es: seq<Event>, id: nat, paging: nat, c: nat) returns (d: nat)
    requires WellFormed(s) && Runs(s, es) && Behind(s.jobs, id, paging, c)
    requires forall k :: 0 <= k < |es| ==> !Reuses(es[k], id, paging)
    ensures if d == 0 then Gone(Run(s, es).jobs, id, paging) else Behind(Run(s, es).jobs, id, paging, d)
    ensures d > 0 ==> d + Ticks(es) <= c + Spawns(es)
    decreases |es|
  {
    if es == [] {
      d := c;
    } else {
      var b := RunReaps(s, es[..|es| - 1], id, paging, c);
      d := StepReaps(Run(s, es[..|es| - 1]), es[|es| - 1], id, paging, b);
    }
  }

  /** Bounded reaping: once there were as many ticks after a termination as jobs, those created since
      included, the slot and the manager of the terminated job are free, unless they were used again. */
  lemma BoundedReaping(s: State, es: seq<Event>)
    requires WellFormed(s) && WellFormed(Step(s, Terminate)) && Runs(Step(s, Terminate), es)
    requires forall k :: 0 <= k < |es| ==> !Reuses(es[k], s.jobs[0].id, s.jobs[0].paging)
    requires Ticks(es) >= |s.jobs| + Spawns(es)
    ensures var after := Run(Step(s, Terminate), es);
            && (forall j :: j in after.jobs ==> j.id != s.jobs[0].id)
            && s.jobs[0].paging !in after.managers
  {
    TerminateMarks(s);
    var s1 := Step(s, Terminate);
    assert Rotated(s1.jobs)[|s.jobs| - 1] == s1.jobs[0];
    var d := RunReaps(s1, es, s.jobs[0].id, s.jobs[0].paging, |s.jobs|);
    PagingsMembers(Run(s1, es).jobs);
  }

  /** With two RUNNING jobs, the terminated one and its manager are gone after the second tick. */
  lemma TerminatedOfTwo(s: State, es: seq<Event>)
    requires WellFormed(s) && |s.jobs| == 2 && WellFormed(Step(s, Terminate)) && Runs(Step(s, Terminate), es)
    requires |es| == 2 && forall k :: 0 <= k < |es| ==> es[k].Tick?
    ensures var after := Run(Step(s, Terminate), es);
            && (forall j :: j in after.jobs ==> j.id != s.jobs[0].id)
            && s.jobs[0].paging !in after.managers
  {
    OnlyTicks(es);
    BoundedReaping(s, es);
  }

  lemma {:induction false} OnlyTicks(es: seq<Event>)
    requires forall k :: 0 <= k < |es| ==> es[k].Tick?
    ensures Ticks(es) == |es| && Spawns(es) == 0
  {
    if es != [] {
      OnlyTicks(es[..|es| - 1]);
    }
  }

  /** That case happens: with a RUNNING job, two ticks always make a run. */
  lemma TwoTicksRun(s: State, a: Cpu, b: Cpu)
    requires WellFormed(s) && HasRunning(s.jobs) && |a.frame| == 32 && |b.frame| == 32
    ensures Runs(s, [Tick(a), Tick(b)])
  {
    InterruptedHasRunning(s.jobs, a);
    ForwardMembers(Interrupted(s.jobs, a));
    TickWellFormed(s, a);
    RunOneMore(s, [], Tick(a), Step(s, Tick(a)));
    assert [] + [Tick(a)] == [Tick(a)];
    assert [Tick(a), Tick(b)][..1] == [Tick(a)];
  }
}
