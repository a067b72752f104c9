/** Address spaces of jobs: job_create_paging and job_init_user_space of kernel/mp/job.c.

    Every space maps the two kernel gigabytes and its own user pages; the frames of user pages come
    from one slab whose first object lies at 0x80000000. */
module AddressSpaces {
  import opened Wrappers
  import opened Bits
  import opened Slabs
  import opened Descriptors
  import opened Walk
  import opened Trees
  import opened Mapping
  import opened Paging
  import Disk

  /** Which address space a frame belongs to, and at which virtual page. */
  datatype Use = Use(root: nat, page: nat)

  /** Below 0x80000000 the kernel sees itself and nobody else sees anything; above it, what is mapped
      is a user page whose frame is recorded as used here and nowhere else. */
  predicate SpaceOk(mem: Memory, frames: map<nat, Use>, r: nat, v: nat) {
    var t := Translate(mem, 1, r, v);
    if v < 0x8000_0000 then t == Some(Translation(v, false, false))
    else t.Some? ==>
      var frame := t.value.pa - v % 0x1000;
      && t.value.unprivileged && !t.value.readOnly
      && frame in frames && frames[frame] == Use(r, Page(v))
  }

  ghost predicate Isolated(mem: Memory, spaces: set<nat>, frames: map<nat, Use>) {
    && (forall r, v: nat :: r in spaces && v < VA_LIMIT ==> SpaceOk(mem, frames, r, v))
    && (forall f :: f in frames ==> f >= 0x8000_0000 && f % 0x1000 == 0)
  }

  /** Isolation of user pages: one frame is reached from one page of one space only. */
  lemma NoSharedFrame(mem: Memory, spaces: set<nat>, frames: map<nat, Use>, r: nat, v: nat, s: nat, u: nat)
    requires Isolated(mem, spaces, frames) && r in spaces && s in spaces && v < VA_LIMIT && u < VA_LIMIT
    requires Translate(mem, 1, r, v).Some? && Translate(mem, 1, r, v).value.unprivileged
    requires Translate(mem, 1, s, u).Some? && Translate(mem, 1, s, u).value.unprivileged
    requires Page(Translate(mem, 1, r, v).value.pa) == Page(Translate(mem, 1, s, u).value.pa)
    ensures r == s && Page(v) == Page(u)
  {
    UserFrame(mem, spaces, frames, r, v);
    UserFrame(mem, spaces, frames, s, u);
  }

  /** Behind an address that user code may access there is a frame of that space and page, and the
      byte at the address's own offset in it. */
  lemma UserFrame(mem: Memory, spaces: set<nat>, frames: map<nat, Use>, r: nat, v: nat)
    requires Isolated(mem, spaces, frames) && r in spaces && v < VA_LIMIT
    requires Translate(mem, 1, r, v).Some? && Translate(mem, 1, r, v).value.unprivileged
    ensures var pa := Translate(mem, 1, r, v).value.pa;
            && 0x1000 * Page(pa) in frames && frames[0x1000 * Page(pa)] == Use(r, Page(v))
            && pa >= 0x8000_0000 && pa % 0x1000 == v % 0x1000
  {
    assert SpaceOk(mem, frames, r, v);
    var f := Translate(mem, 1, r, v).value.pa - v % 0x1000;
    QuotientUnique(f + v % 0x1000, 0x1000, f / 0x1000, v % 0x1000);
  }

  /** What a user may touch lies at or above 0x80000000, and the kernel's gigabytes are the kernel's. */
  lemma KernelProtected(mem: Memory, spaces: set<nat>, frames: map<nat, Use>, r: nat, v: nat)
    requires Isolated(mem, spaces, frames) && r in spaces && v < VA_LIMIT
    ensures Translate(mem, 1, r, v).Some? && Translate(mem, 1, r, v).value.unprivileged ==>
              Translate(mem, 1, r, v).value.pa >= 0x8000_0000
    ensures v < 0x8000_0000 ==> Translate(mem, 1, r, v) == Some(Translation(v, false, false))
  {
    assert SpaceOk(mem, frames, r, v);
  }

  /** Two addresses of any spaces that lead to the same byte, one of them in a user area, are the same. */
  lemma NoSharedByte(mem: Memory, spaces: set<nat>, frames: map<nat, Use>, r: nat, v: nat, s: nat, u: nat)
    requires Isolated(mem, spaces, frames) && r in spaces && s in spaces && v < VA_LIMIT && u < VA_LIMIT
    requires Translate(mem, 1, r, v).Some? && v >= 0x8000_0000 && Translate(mem, 1, s, u).Some?
    requires Translate(mem, 1, r, v).value.pa == Translate(mem, 1, s, u).value.pa
    ensures r == s && v == u
  {
    assert SpaceOk(mem, frames, r, v) && SpaceOk(mem, frames, s, u);
    UserFrame(mem, spaces, frames, r, v);
    if u >= 0x8000_0000 {
      UserFrame(mem, spaces, frames, s, u);
      NoSharedFrame(mem, spaces, frames, r, v, s, u);
      SameByte(v, u);
    }
  }

  lemma SameByte(v: nat, u: nat)
    requires Page(v) == Page(u) && v % 0x1000 == u % 0x1000
    ensures v == u
  {
  }

  // ---------------------------------------------------------------- what user memory holds

  /** Physical memory, byte by byte; a byte that was never written is zero. */
  type Ram = map<nat, Disk.Byte>

  /** The byte at a virtual address of a space, if there is one. */
  function ByteOf(ram: Ram, mem: Memory, r: nat, v: nat): Option<Disk.Byte> {
    var t := Translate(mem, 1, r, v);
    if t.None? then None else Some(if t.value.pa in ram then ram[t.value.pa] else 0)
  }

  /** All bytes of the spaces are what they were. */
  ghost predicate ContentsKept(ram0: Ram, m0: Memory, ram1: Ram, m1: Memory, spaces: set<nat>) {
    forall r, v: nat :: r in spaces && v < VA_LIMIT ==> ByteOf(ram1, m1, r, v) == ByteOf(ram0, m0, r, v)
  }

  /** The first `n` bytes of a program are at the start of the user area. */
  ghost predicate Loaded(ram: Ram, mem: Memory, r: nat, program: seq<Disk.Byte>, n: nat)
    requires n <= |program|
  {
    forall k: nat :: k < n ==> ByteOf(ram, mem, r, 0x8000_0000 + k) == Some(program[k])
  }

  /** Storing a byte through one user address of one space changes what is read there and nowhere else. */
  lemma StoredByte(ram: Ram, mem: Memory, spaces: set<nat>, frames: map<nat, Use>, r: nat, v: nat, b: Disk.Byte,
                   s: nat, u: nat)
    requires Isolated(mem, spaces, frames) && r in spaces && s in spaces && v < VA_LIMIT && u < VA_LIMIT
    requires Translate(mem, 1, r, v).Some? && v >= 0x8000_0000
    ensures ByteOf(ram[Translate(mem, 1, r, v).value.pa := b], mem, s, u) ==
            if s == r && u == v then Some(b) else ByteOf(ram, mem, s, u)
  {
    var t := Translate(mem, 1, s, u);
    if t.Some? && t.value.pa == Translate(mem, 1, r, v).value.pa {
      NoSharedByte(mem, spaces, frames, r, v, s, u);
    }
  }

  /** Copies a program to the start of the user area of `root`, byte by byte through the translation in
      use. It stays inside the mapped pages, and no byte of another space changes. */
  method CopyProgram(ram0: Ram, mem: Memory, root: nat, program: seq<Disk.Byte>, n: nat,
                     ghost spaces: set<nat>, ghost frames: map<nat, Use>) returns (ram: Ram)
    requires Isolated(mem, spaces, frames) && root in spaces
    requires UserMapped(mem, root, n) && |program| <= 0x1000 * n && UserPage(n) <= VA_LIMIT
    ensures Loaded(ram, mem, root, program, |program|)
    ensures ContentsKept(ram0, mem, ram, mem, spaces - {root})
  {
    ram := ram0;
    for k := 0 to |program|
      invariant Loaded(ram, mem, root, program, k)
      invariant ContentsKept(ram0, mem, ram, mem, spaces - {root})
    {
      var v := 0x8000_0000 + k;
      ghost var before := ram;
      ram := ram[Translate(mem, 1, root, v).value.pa := program[k]];
      forall s, u: nat | s in spaces && u < VA_LIMIT
        ensures ByteOf(ram, mem, s, u) == if s == root && u == v then Some(program[k]) else ByteOf(before, mem, s, u)
      {
        StoredByte(before, mem, spaces, frames, root, v, program[k], s, u);
      }
    }
  }

  /** Contents follow translations: what keeps the translations of the spaces keeps their bytes. */
  lemma KeptContents(ram0: Ram, m0: Memory, ram1: Ram, m1: Memory, spaces: set<nat>, all: set<nat>)
    requires Kept(m0, m1, spaces) && ContentsKept(ram0, m1, ram1, m1, all) && spaces <= all
    ensures ContentsKept(ram0, m0, ram1, m1, spaces)
  {
    forall r, v: nat | r in spaces && v < VA_LIMIT
      ensures ByteOf(ram1, m1, r, v) == ByteOf(ram0, m0, r, v)
    {
      assert ByteOf(ram1, m1, r, v) == ByteOf(ram0, m1, r, v);
      assert Translate(m1, 1, r, v) == Translate(m0, 1, r, v);
    }
  }

  // ---------------------------------------------------------------- arithmetic of the user area

  /** The address of user page `i`. */
  function UserPage(i: nat): nat { 0x8000_0000 + 0x1000 * i }

  lemma UserIndices(i: nat)
    ensures Index(1, UserPage(i)) == 2 + i / 0x4_0000
    ensures Index(2, UserPage(i)) == i / 0x200 % 0x200
    ensures Page(UserPage(i)) == 0x8_0000 + i && UserPage(i) % 0x1000 == 0
  {
    var d, l, k := i / 0x4_0000, i / 0x200 % 0x200, i % 0x200;
    QuotientUnique(i, 0x200, d * 0x200 + l, k);
    SplitCorrect(UserPage(i), 2 + d, l, k, 0);
    QuotientUnique(UserPage(i), 0x1000, 0x8_0000 + i, 0);
  }

  /** Tables of level 2 and 3 behind the first `n` user pages: one more at every 2 MB, two at every 1 GB. */
  function TablesFor(n: nat): nat {
    if n == 0 then 0
    else TablesFor(n - 1) + (if (n - 1) % 0x4_0000 == 0 then 2 else if (n - 1) % 0x200 == 0 then 1 else 0)
  }

  lemma {:induction false} TablesMonotonic(n: nat, m: nat)
    requires n <= m
    ensures TablesFor(n) <= TablesFor(m)
    decreases m - n
  {
    if n < m {
      TablesMonotonic(n, m - 1);
    }
  }

  /** The tables of the page before user page `i` are there. */
  predicate Prepared(mem: Memory, root: nat, i: nat) {
    i > 0 ==> Reached(mem, 1, root, UserPage(i - 1))
  }

  /** Going on by one page needs a new table only at the 2 MB and 1 GB boundaries. */
  lemma NextPageMissing(mem: Memory, root: nat, i: nat)
    requires Prepared(mem, root, i)
    ensures TablesFor(i) + Missing(mem, 1, root, UserPage(i)) <= TablesFor(i + 1)
  {
    if i % 0x4_0000 != 0 {
      UserIndices(i);
      UserIndices(i - 1);
      NeighbourIndices(i);
      ReachedNeighbours(mem, root, UserPage(i - 1), UserPage(i));
    }
  }

  lemma NeighbourIndices(i: nat)
    requires i % 0x4_0000 != 0
    ensures i / 0x4_0000 == (i - 1) / 0x4_0000
    ensures i % 0x200 != 0 ==> i / 0x200 == (i - 1) / 0x200
  {
    QuotientUnique(i - 1, 0x4_0000, i / 0x4_0000, i % 0x4_0000 - 1);
    if i % 0x200 != 0 {
      QuotientUnique(i - 1, 0x200, i / 0x200, i % 0x200 - 1);
    }
  }

  /** Whole pages for a number of bytes. */
  function PagesFor(bytes: nat): (n: nat)
    ensures bytes <= 0x1000 * n < bytes + 0x1000
  {
    Ceiling(bytes, 0x1000)
  }

  // ---------------------------------------------------------------- how isolation is kept

  /** A space whose kernel gigabytes are mapped and whose user area is still empty. */
  ghost predicate KernelOnly(mem: Memory, r: nat) {
    forall v: nat :: v < VA_LIMIT ==>
      Translate(mem, 1, r, v) == if v < 0x8000_0000 then Some(Translation(v, false, false)) else None
  }

  lemma KernelBlocks(v: nat)
    requires v < 0x8000_0000
    ensures v < 0x4000_0000 ==> Index(1, v) == 0 && WantedBlock(Request(0, 0, false, false), v).pa == v
    ensures v >= 0x4000_0000 ==>
              Index(1, v) == 1 && WantedBlock(Request(0x4000_0000, 0x4000_0000, false, false), v).pa == v
  {
    if v < 0x4000_0000 {
      QuotientUnique(v, 0x4000_0000, 0, v);
    } else {
      QuotientUnique(v, 0x4000_0000, 1, v - 0x4000_0000);
    }
  }

  /** The log of a run that made one more kernel space. */
  function KernelSpaceEvents(log: seq<Event>, root: nat): seq<Event> {
    log + [Init(root)] + [MapGigabyte(root, Request(0, 0, false, false))]
    + [MapGigabyte(root, Request(0x4000_0000, 0x4000_0000, false, false))]
  }

  /** Init and map_kernel, read off the log, give a space with the kernel only. */
  lemma KernelSpaceLog(log: seq<Event>, root: nat, r: nat, v: nat)
    requires v < VA_LIMIT
    ensures Expected(KernelSpaceEvents(log, root), r, v) ==
            if r != root then Expected(log, r, v)
            else if v < 0x8000_0000 then Some(Translation(v, false, false)) else None
  {
    var g0, g1 := MapGigabyte(root, Request(0, 0, false, false)),
                  MapGigabyte(root, Request(0x4000_0000, 0x4000_0000, false, false));
    ExpectedOfOneMore(log, Init(root), r, v);
    ExpectedOfOneMore(log + [Init(root)], g0, r, v);
    ExpectedOfOneMore(log + [Init(root)] + [g0], g1, r, v);
    if v < 0x8000_0000 {
      KernelBlocks(v);
    } else {
      assert Index(1, v) >= 2;
    }
  }

  /** The translations of all other spaces are the same in both memories. */
  ghost predicate Kept(m0: Memory, m1: Memory, spaces: set<nat>) {
    forall r, v: nat :: r in spaces && v < VA_LIMIT ==> Translate(m1, 1, r, v) == Translate(m0, 1, r, v)
  }

  lemma KernelSpaceTranslations(m0: Memory, o0: Owner, log: seq<Event>, m1: Memory, root: nat, spaces: set<nat>)
    requires root !in o0 && Replays(m0, o0, log)
    requires Replays(m1, o0[root := RootPlace(root)], KernelSpaceEvents(log, root))
    requires forall r :: r in spaces ==> r in o0 && o0[r].level == 1
    ensures KernelOnly(m1, root) && Kept(m0, m1, spaces)
  {
    var o1 := o0[root := RootPlace(root)];
    forall r, v: nat | r in o1 && o1[r].level == 1 && v < VA_LIMIT
      ensures Translate(m1, 1, r, v) ==
              if r != root then Expected(log, r, v)
              else if v < 0x8000_0000 then Some(Translation(v, false, false)) else None
    {
      KernelSpaceLog(log, root, r, v);
    }
  }

  lemma KernelOnlyOk(mem: Memory, frames: map<nat, Use>, r: nat, v: nat)
    requires KernelOnly(mem, r) && v < VA_LIMIT
    ensures SpaceOk(mem, frames, r, v)
  {
    assert Translate(mem, 1, r, v) == if v < 0x8000_0000 then Some(Translation(v, false, false)) else None;
  }

  lemma KeptOk(m0: Memory, m1: Memory, frames: map<nat, Use>, r: nat, v: nat)
    requires SpaceOk(m0, frames, r, v) && Translate(m1, 1, r, v) == Translate(m0, 1, r, v)
    ensures SpaceOk(m1, frames, r, v)
  {
  }

  lemma KernelSpaceIsolated(m0: Memory, m1: Memory, root: nat, spaces: set<nat>, frames: map<nat, Use>)
    requires KernelOnly(m1, root) && Kept(m0, m1, spaces) && Isolated(m0, spaces, frames)
    ensures Isolated(m1, spaces + {root}, frames)
  {
    forall r, v: nat | r in spaces + {root} && v < VA_LIMIT
      ensures SpaceOk(m1, frames, r, v)
    {
      if r == root {
        KernelOnlyOk(m1, frames, r, v);
      } else {
        KeptOk(m0, m1, frames, r, v);
      }
    }
  }

  /** One more kernel space: the others keep their translations, and all are isolated. */
  lemma KernelSpaceMade(m0: Memory, o0: Owner, log: seq<Event>, m1: Memory, root: nat, spaces: set<nat>,
                        frames: map<nat, Use>)
    requires root !in o0 && Replays(m0, o0, log) && Isolated(m0, spaces, frames)
    requires Replays(m1, o0[root := RootPlace(root)], KernelSpaceEvents(log, root))
    requires forall r :: r in spaces ==> r in o0 && o0[r].level == 1
    ensures KernelOnly(m1, root) && Kept(m0, m1, spaces) && Isolated(m1, spaces + {root}, frames)
  {
    KernelSpaceTranslations(m0, o0, log, m1, root, spaces);
    KernelSpaceIsolated(m0, m1, root, spaces, frames);
  }

  /** Mapping a fresh frame at an unmapped user page keeps every space isolated. */
  lemma FreshFrame(m0: Memory, o0: Owner, m1: Memory, spaces: set<nat>, frames: map<nat, Use>,
                   root: nat, i: nat, frame: nat)
    requires Forest(m0, o0) && root in o0 && o0[root].level == 1 && UserPage(i) < VA_LIMIT
    requires forall r :: r in spaces ==> r in o0 && o0[r].level == 1
    requires Mapped(m0, o0, m1, root, Request(UserPage(i), frame, true, false))
    requires Isolated(m0, spaces, frames)
    requires frame !in frames && frame % 0x1000 == 0 && 0x8000_0000 <= frame < PA_LIMIT
    ensures Isolated(m1, spaces, frames[frame := Use(root, Page(UserPage(i)))])
  {
    var q := Request(UserPage(i), frame, true, false);
    var frames' := frames[frame := Use(root, Page(UserPage(i)))];
    UserIndices(i);
    OutputBaseOfSum(3, frame, frame);
    forall r, v: nat | r in spaces && v < VA_LIMIT
      ensures SpaceOk(m1, frames', r, v)
    {
      assert SpaceOk(m0, frames, r, v);
      MappedIsUpdate(m0, o0, m1, root, q, r, v);
    }
  }

  /** The first `n` user pages of a space are mapped, and no other address above the kernel's. */
  ghost predicate UserMapped(mem: Memory, r: nat, n: nat) {
    forall v: nat :: 0x8000_0000 <= v < VA_LIMIT ==> (Translate(mem, 1, r, v).Some? <==> v < UserPage(n))
  }

  /** One more user page, with nobody else's translations touched. */
  lemma OneMorePage(m0: Memory, o0: Owner, m1: Memory, spaces: set<nat>, root: nat, i: nat, frame: nat)
    requires Forest(m0, o0) && root in o0 && o0[root].level == 1 && UserPage(i) < VA_LIMIT
    requires forall r :: r in spaces ==> r in o0 && o0[r].level == 1
    requires Mapped(m0, o0, m1, root, Request(UserPage(i), frame, true, false))
    requires UserMapped(m0, root, i)
    ensures UserMapped(m1, root, i + 1) && Kept(m0, m1, spaces - {root})
  {
    var q := Request(UserPage(i), frame, true, false);
    UserIndices(i);
    forall v: nat | 0x8000_0000 <= v < VA_LIMIT
      ensures Translate(m1, 1, root, v).Some? <==> v < UserPage(i + 1)
    {
      MappedIsUpdate(m0, o0, m1, root, q, root, v);
      assert Page(v) == 0x8_0000 + i <==> UserPage(i) <= v < UserPage(i + 1);
    }
    forall r, v: nat | r in spaces - {root} && v < VA_LIMIT
      ensures Translate(m1, 1, r, v) == Translate(m0, 1, r, v)
    {
      MappedIsUpdate(m0, o0, m1, root, q, r, v);
    }
  }

  /** One round of the mapping loop: it succeeds, and it keeps the spaces isolated. */
  lemma UserPageRound(m0: Memory, o0: Owner, u0: int, m1: Memory, o1: Owner, u1: int,
                      spaces: set<nat>, frames: map<nat, Use>, root: nat, i: nat, frame: nat, res: int)
    requires Forest(m0, o0) && root in spaces && UserPage(i) < VA_LIMIT
    requires forall r :: r in spaces ==> r in o0 && o0[r].level == 1
    requires UserMapped(m0, root, i) && Isolated(m0, spaces, frames)
    requires frame !in frames && frame % 0x1000 == 0 && 0x8000_0000 <= frame < PA_LIMIT
    requires Outcome(m0, o0, u0, m1, o1, u1, root, Request(UserPage(i), frame, true, false), res)
    ensures res == 0 && SameRoots(o0, o1) && u1 == u0 - Missing(m0, 1, root, UserPage(i))
    ensures UserMapped(m1, root, i + 1) && Kept(m0, m1, spaces - {root}) && Prepared(m1, root, i + 1)
    ensures Isolated(m1, spaces, frames[frame := Use(root, Page(UserPage(i)))])
  {
    var q := Request(UserPage(i), frame, true, false);
    assert Translate(m0, 1, root, UserPage(i)) == None;
    ConflictIsTranslated(m0, o0, root, q);
    OneMorePage(m0, o0, m1, spaces, root, i, frame);
    FreshFrame(m0, o0, m1, spaces, frames, root, i, frame);
  }

  lemma KeptTwice(m0: Memory, m1: Memory, m2: Memory, s: set<nat>, t: set<nat>)
    requires Kept(m0, m1, s) && Kept(m1, m2, t) && s <= t
    ensures Kept(m0, m2, s)
  {
  }

  class Spaces {
    const tables: PageTables
    /** The frames of user pages. */
    const userSpace: Slab
    /** The level-1 tables of all spaces made so far, with the use of every user frame. */
    ghost var spaces: set<nat>
    ghost var frames: map<nat, Use>

    ghost predicate Valid()
      reads this, tables, tables.slab.header, userSpace.header
    {
      && tables.Consistent() && tables.slab.End() <= 0x8000_0000
      && userSpace.Valid() && userSpace.objectSize == 0x1000 && userSpace.Base() == 0x8000_0000
      && tables.slab.header != userSpace.header
      && (forall r :: r in spaces <==> tables.IsRoot(r))
      && frames.Keys == userSpace.LiveAddresses()
      && Isolated(tables.mem, spaces, frames)
    }

    ghost function FreeFrames(): int
      requires userSpace.Valid()
      reads userSpace.header
    {
      userSpace.maxStore - |userSpace.Live()|
    }

    /** What does not touch the spaces leaves them valid and their room as it was. */
    twostate lemma Untouched()
      requires old(Valid()) && unchanged(this, tables, tables.slab.header, userSpace.header)
      ensures Valid() && FreeFrames() == old(FreeFrames()) && tables.Unused() == old(tables.Unused())
    {
    }

    /** job_init_user_space places the slab so that its header ends at 0x80000000. */
    constructor (tables: PageTables, blocks: nat)
      requires tables.Consistent() && tables.owner == map[] && tables.slab.End() <= 0x8000_0000
      requires NeededSize(0x1000, blocks) < 0x8000_0000
      ensures Valid() && this.tables == tables && spaces == {} && frames == map[]
      ensures userSpace.maxStore == blocks && FreeFrames() == blocks && fresh(userSpace.header)
    {
      var header := HeaderSize(0x1000, blocks);
      TotalIsProduct(0x1000, blocks);
      var slab := new Slab(0x1000, blocks, 0x8000_0000 - header);
      this.tables, this.userSpace, this.spaces, this.frames := tables, slab, {}, map[];
    }

    /** User code reaches no translation table: not its own and not another's. */
    lemma TablesOutOfReach(r: nat, v: nat, table: nat)
      requires Valid() && r in spaces && v < VA_LIMIT && table in tables.owner
      requires Translate(tables.mem, 1, r, v).Some? && Translate(tables.mem, 1, r, v).value.unprivileged
      ensures Translate(tables.mem, 1, r, v).value.pa >= table + 0x1000
    {
      KernelProtected(tables.mem, spaces, frames, r, v);
      AddressInArea(tables.slab.Base(), 0x1000, tables.slab.Live(), tables.slab.maxStore, table);
    }

    /** A manager with the kernel mapped in, as for the kernel itself and at the start of every job. */
    method KernelSpace() returns (root: nat)
      requires Valid() && tables.Unused() > 0
      modifies this`spaces, tables, tables.slab.header
      ensures Valid() && tables.Unused() == old(tables.Unused()) - 1
      ensures root !in old(spaces) && spaces == old(spaces) + {root}
      ensures KernelOnly(tables.mem, root) && Kept(old(tables.mem), tables.mem, old(spaces))
    {
      ghost var m0, o0, log := tables.mem, tables.owner, tables.log;
      root := tables.ManagerInit();
      tables.ManagerMapKernel(root);
      KernelSpaceMade(m0, o0, log, tables.mem, root, spaces, frames);
      spaces := spaces + {root};
    }

    /** One round of the mapping loop: a frame from the slab behind user page `i`. */
    method MapUserPage(root: nat, i: nat)
      requires Valid() && root in spaces && UserPage(i) < VA_LIMIT
      requires UserMapped(tables.mem, root, i) && Prepared(tables.mem, root, i)
      requires FreeFrames() > 0 && TablesFor(i + 1) - TablesFor(i) <= tables.Unused()
      modifies this`frames, tables, tables.slab.header, userSpace.header
      ensures Valid() && UserMapped(tables.mem, root, i + 1) && Prepared(tables.mem, root, i + 1)
      ensures Kept(old(tables.mem), tables.mem, spaces - {root})
      ensures FreeFrames() == old(FreeFrames()) - 1
      ensures tables.Unused() >= old(tables.Unused()) - (TablesFor(i + 1) - TablesFor(i))
    {
      NextPageMissing(tables.mem, root, i);
      var frame := TakeFrame();
      MapFrame(root, i, frame);
      frames := frames[frame := Use(root, Page(UserPage(i)))];
      assert frames.Keys == userSpace.LiveAddresses();
    }

    /** Maps a frame that is in nobody's use at user page `i`, the next one of `root`. */
    method MapFrame(root: nat, i: nat, frame: nat)
      requires tables.Consistent() && root in spaces && (forall r :: r in spaces <==> tables.IsRoot(r))
      requires UserPage(i) < VA_LIMIT && UserMapped(tables.mem, root, i) && Isolated(tables.mem, spaces, frames)
      requires frame !in frames && frame % 0x1000 == 0 && 0x8000_0000 <= frame < PA_LIMIT
      requires Missing(tables.mem, 1, root, UserPage(i)) <= tables.Unused()
      modifies tables, tables.slab.header
      ensures tables.Consistent() && (forall r :: r in spaces <==> tables.IsRoot(r))
      ensures UserMapped(tables.mem, root, i + 1) && Prepared(tables.mem, root, i + 1)
      ensures Kept(old(tables.mem), tables.mem, spaces - {root})
      ensures Isolated(tables.mem, spaces, frames[frame := Use(root, Page(UserPage(i)))])
      ensures tables.Unused() == old(tables.Unused()) - Missing(old(tables.mem), 1, root, UserPage(i))
    {
      ghost var m0, o0, u0 := tables.mem, tables.owner, tables.Unused();
      var res := tables.ManagerMapPage(root, Request(UserPage(i), frame, true, false));
      UserPageRound(m0, o0, u0, tables.mem, tables.owner, tables.Unused(), spaces, frames, root, i, frame, res);
    }

    method TakeFrame() returns (frame: nat)
      requires userSpace.Valid() && userSpace.objectSize == 0x1000 && userSpace.Base() == 0x8000_0000
      requires FreeFrames() > 0
      modifies userSpace.header
      ensures FreeFrames() == old(FreeFrames()) - 1
      ensures frame !in old(userSpace.LiveAddresses())
      ensures userSpace.LiveAddresses() == old(userSpace.LiveAddresses()) + {frame}
      ensures frame % 0x1000 == 0 && 0x8000_0000 <= frame < PA_LIMIT
    {
      ghost var slot: nat;
      frame, slot := userSpace.Allocate();
      PagesAligned(userSpace.Base(), slot);
    }

    method MapUserPages(root: nat, n: nat)
      requires Valid() && root in spaces && UserPage(n) <= VA_LIMIT
      requires UserMapped(tables.mem, root, 0)
      requires n <= FreeFrames() && TablesFor(n) <= tables.Unused()
      modifies this`frames, tables, tables.slab.header, userSpace.header
      ensures Valid() && UserMapped(tables.mem, root, n)
      ensures Kept(old(tables.mem), tables.mem, spaces - {root})
      ensures FreeFrames() == old(FreeFrames()) - n
      ensures tables.Unused() >= old(tables.Unused()) - TablesFor(n)
    {
      ghost var m0, free, unused := tables.mem, FreeFrames(), tables.Unused();
      for i := 0 to n
        invariant Valid() && UserMapped(tables.mem, root, i)
        invariant Kept(m0, tables.mem, spaces - {root})
        invariant Prepared(tables.mem, root, i)
        invariant FreeFrames() == free - i
        invariant tables.Unused() >= unused - TablesFor(i)
      {
        ghost var m1 := tables.mem;
        TablesMonotonic(i + 1, n);
        MapUserPage(root, i);
        KeptTwice(m0, m1, tables.mem, spaces - {root}, spaces - {root});
      }
    }

    /** The address space of a new job: `size` bytes and a page of stack, rounded up to pages. */
    method CreatePaging(size: nat) returns (root: nat, allocatedSize: nat)
      requires Valid() && size + 4096 < 0x8000_0000
      requires PagesFor(size + 4096) <= FreeFrames()
      requires 1 + TablesFor(PagesFor(size + 4096)) <= tables.Unused()
      modifies this, tables, tables.slab.header, userSpace.header
      ensures Valid()
      ensures root !in old(spaces) && spaces == old(spaces) + {root}
      ensures Kept(old(tables.mem), tables.mem, old(spaces))
      ensures allocatedSize == 0x1000 * PagesFor(size + 4096)
      ensures UserMapped(tables.mem, root, PagesFor(size + 4096))
      ensures FreeFrames() == old(FreeFrames()) - PagesFor(size + 4096)
      ensures tables.Unused() >= old(tables.Unused()) - 1 - TablesFor(PagesFor(size + 4096))
    {
      ghost var m0, before := tables.mem, spaces;
      root := KernelSpace();
      ghost var m1 := tables.mem;
      var needSlots := PagesFor(size + 4096);
      allocatedSize := 0x1000 * needSlots;
      MapUserPages(root, needSlots);
      KeptTwice(m0, m1, tables.mem, before, spaces - {root});
    }
  }
}
